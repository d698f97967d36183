/** Placing a device reported by udev into the tree, with virtual rows for ancestors not seen yet. */
module TreeAttach {
  import opened Common
  import opened DeviceTable
  import opened DeviceSubtrees
  import opened DeviceStore
  import opened DevicePaths

  // ----- what an attach writes

  /** The row can carry a current child: it belongs to the current boot or is a static container. */
  predicate Carries(t: Table, boot: string, id: int) {
    id in t && (t[id].bootId == boot || t[id].bootId == STATIC_BOOT)
  }

  predicate SameControl(a: Row, b: Row) {
    a.level == b.level && a.explicit == b.explicit && a.ignoreHierarchy == b.ignoreHierarchy && a.children == b.children
  }

  /** A row that carries no policy of its own. */
  predicate PlainRow(r: Row) {
    !r.explicit && !r.ignoreHierarchy && r.children == Inherit
  }

  /** A known row keeps its policy, and is found again by hash, subsystem and parent, or is the
      virtual row at the path. */
  predicate TakesOver(w: Row, known: Row) {
    && SameControl(w, known)
    && (|| (w.hash == known.hash && w.subsystem == known.subsystem && w.parentId == known.parentId)
        || (known.subsystem == VIRTUAL && w.devpath == known.devpath))
  }

  /** A current row under the row at its parent path, which is able to carry it; known rows keep
      their policy, new rows only copy the level above. */
  ghost predicate GoodWrite(t: Table, boot: string, w: Row) {
    && w.id > 0 && w.bootId == boot
    && Carries(t, boot, w.parentId) && t[w.parentId].devpath == ParentPath(w.devpath)
    && (if w.id in t then TakesOver(w, t[w.id]) else PlainRow(w) && w.level == t[w.parentId].level)
  }

  ghost function Applied(t: Table, writes: seq<Row>): Table
    decreases |writes|
  {
    if writes == [] then t else Applied(t[writes[0].id := writes[0]], writes[1..])
  }

  ghost predicate GoodWrites(t: Table, boot: string, writes: seq<Row>)
    decreases |writes|
  {
    writes == [] || (GoodWrite(t, boot, writes[0]) && GoodWrites(t[writes[0].id := writes[0]], boot, writes[1..]))
  }

  lemma {:induction false} WriteOneMore(t: Table, boot: string, writes: seq<Row>, w: Row)
    requires GoodWrites(t, boot, writes) && GoodWrite(Applied(t, writes), boot, w)
    ensures GoodWrites(t, boot, writes + [w])
    ensures Applied(t, writes + [w]) == Applied(t, writes)[w.id := w]
    decreases |writes|
  {
    if writes == [] {
      assert [w][1..] == [];
    } else {
      assert (writes + [w])[1..] == writes[1..] + [w];
      WriteOneMore(t[writes[0].id := writes[0]], boot, writes[1..], w);
    }
  }

  lemma WriteKeepsAnchors(t: Table, boot: string, w: Row)
    requires Anchored(t, boot) && GoodWrite(t, boot, w)
    ensures Anchored(t[w.id := w], boot)
  {
  }

  /** Whatever an attach gets done, also when it then fails, keeps every current row anchored. */
  lemma {:induction false} WritesKeepAnchors(t: Table, boot: string, writes: seq<Row>)
    requires Anchored(t, boot) && GoodWrites(t, boot, writes)
    ensures Anchored(Applied(t, writes), boot)
    decreases |writes|
  {
    hide Anchored;
    if writes != [] {
      WriteKeepsAnchors(t, boot, writes[0]);
      WritesKeepAnchors(t[writes[0].id := writes[0]], boot, writes[1..]);
    }
  }

  /** No row loses or gains policy: known rows keep theirs, new rows have none. */
  lemma {:induction false} WritesKeepPolicy(t: Table, boot: string, writes: seq<Row>)
    requires GoodWrites(t, boot, writes)
    ensures forall id :: id in t ==> id in Applied(t, writes) && SameControl(Applied(t, writes)[id], t[id])
    ensures forall id :: id in Applied(t, writes) && id !in t ==> PlainRow(Applied(t, writes)[id])
    decreases |writes|
  {
    if writes != [] {
      WritesKeepPolicy(t[writes[0].id := writes[0]], boot, writes[1..]);
    }
  }

  // ----- runs of attaches and disconnects

  datatype Step = Attach(writes: seq<Row>) | Disconnect(target: int)

  ghost predicate Possible(t: Table, boot: string, s: Step)
    requires boot != ""
  {
    match s
    case Attach(writes) => GoodWrites(t, boot, writes)
    case Disconnect(target) => target in Current(t, boot)
  }

  ghost function After(t: Table, boot: string, s: Step): Table
    requires boot != "" && Possible(t, boot, s)
  {
    match s
    case Attach(writes) => Applied(t, writes)
    case Disconnect(target) => Disconnected(t, boot, target)
  }

  ghost predicate IsRun(tables: seq<Table>, steps: seq<Step>, boot: string)
    requires boot != ""
  {
    && |tables| == |steps| + 1
    && forall i :: 0 <= i < |steps| ==>
         Possible(tables[i], boot, steps[i]) && tables[i + 1] == After(tables[i], boot, steps[i])
  }

  lemma {:induction false} WritesKeepValid(t: Table, boot: string, writes: seq<Row>)
    requires ValidTable(t) && GoodWrites(t, boot, writes)
    ensures ValidTable(Applied(t, writes))
    decreases |writes|
  {
    if writes != [] {
      WritesKeepValid(t[writes[0].id := writes[0]], boot, writes[1..]);
    }
  }

  /** In every run of attaches and disconnects each current row hangs on a current or static row. */
  lemma {:induction false} EveryRunKeepsAnchors(tables: seq<Table>, steps: seq<Step>, boot: string, n: nat)
    requires boot != "" && IsRun(tables, steps, boot) && n <= |steps|
    requires ValidTable(tables[0]) && Anchored(tables[0], boot)
    ensures ValidTable(tables[n]) && Anchored(tables[n], boot)
  {
    hide Anchored, GoodWrites, Disconnected;
    if n > 0 {
      EveryRunKeepsAnchors(tables, steps, boot, n - 1);
      var t, s := tables[n - 1], steps[n - 1];
      match s {
        case Attach(writes) =>
          WritesKeepAnchors(t, boot, writes);
          WritesKeepValid(t, boot, writes);
        case Disconnect(target) =>
          DisconnectKeepsAnchors(t, boot, target);
          DisconnectKeepsValid(t, boot, target);
      }
    }
  }

  lemma DisconnectKeepsValid(t: Table, boot: string, target: int)
    requires ValidTable(t) && boot != "" && target in Current(t, boot)
    ensures ValidTable(Disconnected(t, boot, target))
  {
    hide Subtree, PruneChain;
    DisconnectExact(t, boot, target);
    ClearingKeepsLinks(t,
      Subtree(t, boot, target) + Ids(PruneChain(Cleared(t, Subtree(t, boot, target)), boot, t[target].parentId)), 0, 0);
  }

  // ----- links and paths

  /** Current rows hang on the row at their parent path. */
  ghost predicate LinksMatchPaths(t: Table, boot: string) {
    forall id :: id in t && t[id].bootId == boot && t[id].parentId in t ==>
          t[t[id].parentId].devpath == ParentPath(t[id].devpath)
  }

  /**
   * Re-attaching a known device under the row at its parent path keeps links and paths together
   * exactly when it did not move to another path with current children on it: those keep their old
   * paths, which no longer begin with the path of the row they hang on.
   */
  lemma ReattachKeepsLinksExactly(t: Table, boot: string, w: Row)
    requires LinksMatchPaths(t, boot) && w.id in t && GoodWrite(t, boot, w)
    requires w.parentId != w.id
    ensures LinksMatchPaths(t[w.id := w], boot) <==> w.devpath == t[w.id].devpath || !CarriesOthers(t, boot, w.id)
  {
    var after := t[w.id := w];
    if CarriesOthers(t, boot, w.id) {
      var k :| k in t && k != w.id && t[k].parentId == w.id && t[k].bootId == boot;
      assert after[k] == t[k];
    }
  }

  predicate CarriesOthers(t: Table, boot: string, id: int) {
    exists k :: k in t && k != id && t[k].parentId == id && t[k].bootId == boot
  }

  // ----- attributes

  function WithAttributes(all: map<int, Attributes>, id: int, list: seq<(string, string)>): map<int, Attributes> {
    if list == [] then all
    else
      var rest, last := list[..|list| - 1], list[|list| - 1];
      if last.1 == "" then WithAttributes(all, id, rest)
      else WithAttribute(WithAttributes(all, id, rest), id, last.0, last.1)
  }

  function AttributeOf(all: map<int, Attributes>, id: int, name: string): Option<string> {
    if id in all && name in all[id] then Some(all[id][name]) else None
  }

  /** The last non-empty value reported under a name. */
  function Reported(list: seq<(string, string)>, name: string): Option<string> {
    if list == [] then None
    else if list[|list| - 1].0 == name && list[|list| - 1].1 != "" then Some(list[|list| - 1].1)
    else Reported(list[..|list| - 1], name)
  }

  /** Non-empty reported values are stored; nothing else changes. */
  lemma {:induction false} AttributesStored(all: map<int, Attributes>, id: int, list: seq<(string, string)>, at: int,
                                            name: string)
    ensures AttributeOf(WithAttributes(all, id, list), at, name) ==
            if at == id && Reported(list, name).Some? then Reported(list, name) else AttributeOf(all, at, name)
  {
    if list != [] {
      AttributesStored(all, id, list[..|list| - 1], at, name);
    }
  }

  // ----- the collector

  function VirtualHash(path: string): string {
    "virtual_hash_for_device[" + path + "]"
  }

  /** A managed path: below the container of all devices. */
  predicate BelowRoot(path: string) {
    ROOT + "/" <= path
  }

  /** The containers the database is created with are there. */
  predicate HasContainers(t: Table, boot: string) {
    Found(t, boot, ROOT) && Found(t, boot, PCI_ROOT)
  }

  lemma {:induction false} ParentStaysBelow(path: string)
    requires BelowRoot(path)
    ensures LastSlash(path) > 0 && |ParentPath(path)| < |path|
    ensures ParentPath(path) == ROOT || BelowRoot(ParentPath(path))
  {
    assert path[8] == '/';
    var parent := ParentPath(path);
    assert path[..9] == ROOT + "/";
    if LastSlash(path) == 8 {
      assert parent == path[..9][..8] == ROOT;
    } else {
      assert parent[..9] == path[..9];
    }
  }

  /** Virtual rows revived or created one below the other, none of them current before. */
  ghost predicate RevivedChain(t: Table, boot: string, writes: seq<Row>) {
    if writes == [] then true
    else
      var n := |writes| - 1;
      var init, w := writes[..n], writes[n];
      && RevivedChain(t, boot, init)
      && w.subsystem == VIRTUAL
      && (w.id in Applied(t, init) ==> Applied(t, init)[w.id].bootId != boot)
      && (n > 0 ==> w.parentId == init[n - 1].id)
  }

  /** The writes lie on the way from the root down to this path. */
  ghost predicate OnTheWay(path: string, writes: seq<Row>) {
    forall i :: 0 <= i < |writes| ==> BelowRoot(writes[i].devpath) && |writes[i].devpath| <= |path|
  }

  /** A path missing before is still missing after writes higher up. */
  lemma {:induction false} StillMissing(t: Table, boot: string, path: string, writes: seq<Row>, id: int)
    requires !Found(t, boot, path) && path != ROOT && path != PCI_ROOT
    requires forall i :: 0 <= i < |writes| ==> |writes[i].devpath| < |path|
    ensures !AtPath(Applied(t, writes), path, boot, id)
    decreases |writes|
  {
    if writes != [] {
      var next := t[writes[0].id := writes[0]];
      assert !Found(next, boot, path) by {
        assert forall k :: k in next && k != writes[0].id ==> k in t && next[k] == t[k];
        assert next[writes[0].id].devpath != path;
      }
      StillMissing(next, boot, path, writes[1..], id);
    }
  }

  /** For a managed path and a database with its containers: what creating it may write. */
  ghost predicate WellLaid(t: Table, boot: string, path: string, writes: seq<Row>) {
    BelowRoot(path) && HasContainers(t, boot) ==> OnTheWay(path, writes) && RevivedChain(t, boot, writes)
  }

  lemma {:induction false} NothingWritten(t: Table, boot: string, path: string)
    ensures WellLaid(t, boot, path, []) && Applied(t, []) == t && GoodWrites(t, boot, [])
    ensures CreatesPart(t, boot, path, [])
  {
  }

  lemma LaidFromParent(t: Table, boot: string, path: string, writes: seq<Row>)
    requires WellLaid(t, boot, ParentPath(path), writes) && !Found(t, boot, ParentPath(path))
    ensures WellLaid(t, boot, path, writes)
  {
    hide Found, ParentPath, RevivedChain, BelowRoot;
    if BelowRoot(path) && HasContainers(t, boot) {
      ParentStaysBelow(path);
    }
  }

  /** One more virtual row at the end of the chain. */
  lemma {:induction false} LaidGrows(t: Table, boot: string, path: string, writes: seq<Row>, w: Row)
    requires !Found(t, boot, path) && (writes == [] || !Found(t, boot, ParentPath(path)))
    requires WellLaid(t, boot, ParentPath(path), writes)
    requires w.devpath == path && w.subsystem == VIRTUAL && (writes != [] ==> w.parentId == writes[|writes| - 1].id)
    requires w.id in Applied(t, writes) ==> Applied(t, writes)[w.id].devpath == path
    ensures WellLaid(t, boot, path, writes + [w])
  {
    hide Found, BelowRoot, ParentPath;
    if BelowRoot(path) && HasContainers(t, boot) {
      ParentStaysBelow(path);
      assert (writes + [w])[..|writes|] == writes;
      assert OnTheWay(ParentPath(path), writes) && RevivedChain(t, boot, writes);
      StillMissing(t, boot, path, writes, w.id);
    }
  }

  /** The write for the device itself. */
  predicate IsOwnWrite(w: Row, path: string, subsystem: string, hash: string, parent: int) {
    w.devpath == path && w.subsystem == subsystem && w.hash == hash && w.parentId == parent
  }

  /** The write that creates the virtual row of a path, or revives the one there is. */
  ghost predicate VirtualWrite(t: Table, boot: string, path: string, w: Row) {
    && w.devpath == path && w.subsystem == VIRTUAL && w.hash == VirtualHash(path) && w.bootId == boot
    && (if HasVirtual(t, path) then w.id in t && IsVirtualAt(t[w.id], path) else w.id !in t)
  }

  predicate HasVirtual(t: Table, path: string) {
    exists k :: k in t && IsVirtualAt(t[k], path)
  }

  predicate HasOccurrence(t: Table, hash: string, subsystem: string, parent: int) {
    exists k :: k in t && IsOccurrence(t[k], hash, subsystem, parent)
  }

  /** One virtual row for the path and each missing ancestor of it, from the top down, each below the one
      before and the first below the ancestor that was found. */
  ghost predicate Creates(t: Table, boot: string, path: string, writes: seq<Row>)
    decreases |writes|
  {
    writes != [] &&
    var n := |writes| - 1;
    && (if Found(t, boot, ParentPath(path))
        then n == 0 && AtPath(t, ParentPath(path), BootOf(ParentPath(path), boot), writes[n].parentId)
        else Creates(t, boot, ParentPath(path), writes[..n]) && writes[n].parentId == writes[n - 1].id)
    && VirtualWrite(Applied(t, writes[..n]), boot, path, writes[n])
  }

  /** What is left of it when a statement fails: nothing, or all that was needed for an ancestor. */
  ghost predicate CreatesPart(t: Table, boot: string, path: string, writes: seq<Row>) {
    writes == [] || exists n: nat :: n > 0 && Creates(t, boot, Ancestor(path, n), writes)
  }

  lemma {:induction false} PartOfMore(t: Table, boot: string, path: string, writes: seq<Row>)
    requires CreatesPart(t, boot, ParentPath(path), writes) || Creates(t, boot, ParentPath(path), writes)
    ensures CreatesPart(t, boot, path, writes)
  {
    hide Creates, ParentPath;
    assert Ancestor(path, 1) == Ancestor(ParentPath(path), 0) == ParentPath(path);
    if writes != [] && !Creates(t, boot, ParentPath(path), writes) {
      var n: nat :| n > 0 && Creates(t, boot, Ancestor(ParentPath(path), n), writes);
      assert Ancestor(path, n + 1) == Ancestor(ParentPath(path), n);
    }
  }

  lemma VirtualWriteSays(t: Table, boot: string, path: string, w: Row)
    requires VirtualWrite(t, boot, path, w)
    ensures w.devpath == path && w.subsystem == VIRTUAL && w.hash == VirtualHash(path)
    ensures w.id in t ==> t[w.id].devpath == path
  {
    hide VirtualHash;
  }

  lemma {:induction false} CreatesMore(t: Table, boot: string, path: string, writes: seq<Row>, w: Row)
    requires if Found(t, boot, ParentPath(path))
             then writes == [] && AtPath(t, ParentPath(path), BootOf(ParentPath(path), boot), w.parentId)
             else Creates(t, boot, ParentPath(path), writes) && writes != [] && w.parentId == writes[|writes| - 1].id
    requires VirtualWrite(Applied(t, writes), boot, path, w)
    ensures Creates(t, boot, path, writes + [w])
  {
    hide Applied, VirtualWrite, Found, ParentPath;
    assert (writes + [w])[..|writes|] == writes;
  }

  /**
   * Which row an attach writes: the known occurrence under the parent if there is one; otherwise the
   * virtual row at the path if there is one; otherwise a new row.
   */
  predicate ChosenRow(t: Table, path: string, subsystem: string, hash: string, parent: int, id: int) {
    if HasOccurrence(t, hash, subsystem, parent) then id in t && IsOccurrence(t[id], hash, subsystem, parent)
    else if HasVirtual(t, path) then id in t && IsVirtualAt(t[id], path)
    else id !in t
  }

  /** The row a successful attach leaves for the device. */
  ghost predicate Attached(t: Table, boot: string, path: string, subsystem: string, hash: string, id: int) {
    && AtPath(t, path, boot, id) && t[id].subsystem == subsystem && t[id].hash == hash
    && Carries(t, boot, t[id].parentId)
    && (t[id].parentId == id || t[t[id].parentId].devpath == ParentPath(path))
  }

  class Collector {
    const db: DeviceDb

    constructor (db: DeviceDb)
      ensures this.db == db
    {
      this.db := db;
    }

    /** SELECT ... WHERE devpath = ? AND boot_id = ? LIMIT 1; -1 when there is none. */
    method FindAncestor(path: string, boot: string) returns (id: int)
      requires db.Valid()
      ensures id == -1 <==> !Found(db.content.rows, boot, path)
      ensures id != -1 ==> AtPath(db.content.rows, path, BootOf(path, boot), id) && Carries(db.content.rows, boot, id)
    {
      var wanted := BootOf(path, boot);
      if exists k :: k in db.content.rows && AtPath(db.content.rows, path, wanted, k) {
        id :| id in db.content.rows && AtPath(db.content.rows, path, wanted, id);
      } else {
        id := -1;
      }
    }

    method FindVirtual(path: string) returns (id: int)
      requires db.Valid()
      ensures id != -1 ==> id in db.content.rows && IsVirtualAt(db.content.rows[id], path)
      ensures id == -1 <==> !HasVirtual(db.content.rows, path)
    {
      if exists k :: k in db.content.rows && IsVirtualAt(db.content.rows[k], path) {
        id :| id in db.content.rows && IsVirtualAt(db.content.rows[id], path);
      } else {
        id := -1;
      }
    }

    method FindOccurrence(hash: string, subsystem: string, parent: int) returns (id: int)
      requires db.Valid()
      ensures id != -1 ==> id in db.content.rows && IsOccurrence(db.content.rows[id], hash, subsystem, parent)
      ensures id == -1 <==> !HasOccurrence(db.content.rows, hash, subsystem, parent)
    {
      if exists k :: k in db.content.rows && IsOccurrence(db.content.rows[k], hash, subsystem, parent) {
        id :| id in db.content.rows && IsOccurrence(db.content.rows[id], hash, subsystem, parent);
      } else {
        id := -1;
      }
    }

    /** Creates or revives the virtual row of a missing path, after those of its missing ancestors. */
    method CreateVirtual(path: string, boot: string) returns (id: int, ghost writes: seq<Row>)
      requires db.Valid() && Rooted(db.content.rows, boot) && !Found(db.content.rows, boot, path)
      modifies db
      ensures db.Valid() && db.saved == old(db.saved)
      ensures GoodWrites(old(db.content).rows, boot, writes)
      ensures db.content == old(db.content).(rows := Applied(old(db.content).rows, writes))
      ensures id != -1 ==> Attached(db.content.rows, boot, path, VIRTUAL, VirtualHash(path), id)
      ensures id != -1 ==> writes != [] && writes[|writes| - 1].id == id
      ensures WellLaid(old(db.content).rows, boot, path, writes)
      ensures if id != -1 then Creates(old(db.content).rows, boot, path, writes)
              else CreatesPart(old(db.content).rows, boot, path, writes)
      ensures old(db.failed) <= db.failed && (id != -1 <==> db.failed == old(db.failed))
      decreases Climb(path)
    {
      hide Rooted, Found, ParentPath, VirtualHash, WellLaid, GoodWrites, GoodWrite, Applied, Creates, CreatesPart,
           VirtualWrite, Climb;
      ghost var before := db.content.rows;
      NothingWritten(before, boot, path);
      NothingWritten(before, boot, ParentPath(path));
      writes := [];
      var parentPath := ParentPath(path);
      var parent := FindAncestor(parentPath, boot);
      if parent == -1 {
        ClimbDecreases(before, boot, path);
        parent, writes := CreateVirtual(parentPath, boot);
        LaidFromParent(before, boot, path, writes);
        PartOfMore(before, boot, path, writes);
        if parent == -1 {
          return -1, writes;
        }
      }
      assert Carries(db.content.rows, boot, parent);
      ghost var row;
      id, row := WriteVirtual(path, boot, parent);
      if id != -1 {
        VirtualWriteSays(Applied(before, writes), boot, path, row);
        WriteOneMore(before, boot, writes, row);
        LaidGrows(before, boot, path, writes, row);
        CreatesMore(before, boot, path, writes, row);
        writes := writes + [row];
      }
    }

    /** The virtual row of the path: the one there is, or a new one. */
    method WriteVirtual(path: string, boot: string, parent: int) returns (id: int, ghost row: Row)
      requires db.Valid() && Carries(db.content.rows, boot, parent) &&
               db.content.rows[parent].devpath == ParentPath(path)
      modifies db
      ensures db.Valid() && db.saved == old(db.saved)
      ensures id == -1 ==> db.content == old(db.content)
      ensures id != -1 ==>
                row.id == id && row.parentId == parent && VirtualWrite(old(db.content).rows, boot, path, row) &&
                GoodWrite(old(db.content).rows, boot, row) &&
                db.content == old(db.content).(rows := old(db.content).rows[id := row])
      ensures id != -1 ==> Attached(db.content.rows, boot, path, VIRTUAL, VirtualHash(path), id)
      ensures old(db.failed) <= db.failed && (id != -1 <==> db.failed == old(db.failed))
    {
      hide ParentPath, VirtualHash;
      var existing := FindVirtual(path);
      if existing != -1 {
        row := db.content.rows[existing].(parentId := parent, bootId := boot, hash := VirtualHash(path));
        var updated := db.UpdateDevice(
          db.content.rows[existing].(parentId := parent, bootId := boot, hash := VirtualHash(path)), existing);
        return if updated then existing else -1, row;
      }
      var newRow := Row(0, VirtualHash(path), path, VIRTUAL, parent, db.content.rows[parent].level, false, false,
        boot, Inherit);
      id := db.AddDevice(newRow);
      row := newRow.(id := id);
    }

    method AddAttributes(id: int, list: seq<(string, string)>) returns (ok: bool)
      requires db.Valid()
      modifies db
      ensures db.Valid() && db.saved == old(db.saved)
      ensures db.content.rows == old(db.content).rows && db.content.events == old(db.content).events
      ensures ok ==> db.content.attributes == WithAttributes(old(db.content).attributes, id, list)
      ensures db.failed == old(db.failed) + if ok then [] else [SetAttribute(id)]
    {
      ghost var before := db.content;
      for i := 0 to |list|
        invariant db.Valid() && db.saved == old(db.saved)
        invariant db.content.rows == before.rows && db.content.events == before.events
        invariant db.content.attributes == WithAttributes(before.attributes, id, list[..i])
        invariant db.failed == old(db.failed)
      {
        assert list[..i + 1][..i] == list[..i];
        if list[i].1 != "" {
          ok := db.AddDeviceAttribute(id, list[i].0, list[i].1);
          if !ok {
            return;
          }
        }
      }
      assert list[..|list|] == list;
      ok := true;
    }

    /** The single row write of an attach under a found parent, inside the open transaction. */
    method WriteDevice(path: string, subsystem: string, hash: string, boot: string, parent: int)
      returns (id: int, ghost writes: seq<Row>)
      requires db.Valid() && Carries(db.content.rows, boot, parent) &&
               db.content.rows[parent].devpath == ParentPath(path)
      modifies db
      ensures db.Valid() && db.saved == old(db.saved)
      ensures GoodWrites(old(db.content).rows, boot, writes)
      ensures db.content == old(db.content).(rows := Applied(old(db.content).rows, writes))
      ensures id != -1 ==> Attached(db.content.rows, boot, path, subsystem, hash, id)
      ensures if id != -1 then |writes| == 1 && IsOwnWrite(writes[0], path, subsystem, hash, parent) else writes == []
      ensures id != -1 ==> writes[0].id == id && ChosenRow(old(db.content).rows, path, subsystem, hash, parent, id)
      ensures old(db.failed) <= db.failed && (id != -1 <==> db.failed == old(db.failed))
    {
      ghost var before := db.content.rows;
      writes := [];
      hide ParentPath;
      var existing := FindOccurrence(hash, subsystem, parent);
      if existing == -1 {
        existing := FindVirtual(path);
      }
      if existing != -1 {
        var row := db.content.rows[existing].(hash := hash, devpath := path, subsystem := subsystem,
          parentId := parent, bootId := boot);
        WriteOneMore(before, boot, [], row);
        var updated := db.UpdateDevice(row, existing);
        if !updated {
          return -1, [];
        }
        return existing, [] + [row];
      }
      var newRow := Row(0, hash, path, subsystem, parent, db.content.rows[parent].level, false, false, boot, Inherit);
      id := db.AddDevice(newRow);
      if id != -1 {
        WriteOneMore(before, boot, [], newRow.(id := id));
        writes := [] + [newRow.(id := id)];
      }
    }

    /**
     * Attaches a device. Ancestors may stay behind when the device itself fails; the device and its
     * attributes are written together or not at all. `placed` says that the parent row was there
     * or could be created.
     */
    method CreateDevice(path: string, subsystem: string, hash: string, boot: string, list: seq<(string, string)>)
      returns (ok: bool, id: int, ghost ancestors: seq<Row>, ghost own: seq<Row>, ghost placed: bool)
      requires db.Valid() && db.saved == None && Rooted(db.content.rows, boot)
      modifies db
      ensures db.Valid() && db.saved == None && db.content.events == old(db.content).events
      ensures GoodWrites(old(db.content).rows, boot, ancestors)
      ensures GoodWrites(Applied(old(db.content).rows, ancestors), boot, own)
      ensures db.content.rows == Applied(Applied(old(db.content).rows, ancestors), own)
      ensures boot == "" ==> !ok
      ensures ok ==> Attached(db.content.rows, boot, path, subsystem, hash, id)
      ensures ok ==> db.content.attributes == WithAttributes(old(db.content).attributes, id, list)
      ensures !ok ==> own == [] && db.content.attributes == old(db.content).attributes
      ensures ok ==> |own| == 1 && own[0].devpath == path && own[0].subsystem == subsystem
      ensures ok && ancestors != [] ==> own[0].parentId == ancestors[|ancestors| - 1].id
      ensures WellLaid(old(db.content).rows, boot, path, ancestors)
      ensures WellLaid(old(db.content).rows, boot, ParentPath(path), ancestors)
      ensures ok ==> placed
      ensures placed ==> (ancestors == [] <==> Found(old(db.content).rows, boot, ParentPath(path)))
      ensures Found(old(db.content).rows, boot, ParentPath(path)) ==> ancestors == []
      ensures if placed && ancestors != [] then Creates(old(db.content).rows, boot, ParentPath(path), ancestors)
              else CreatesPart(old(db.content).rows, boot, ParentPath(path), ancestors)
      ensures ok ==> own[0].id == id && own[0].hash == hash &&
                     ChosenRow(Applied(old(db.content).rows, ancestors), path, subsystem, hash, own[0].parentId, id)
      ensures old(db.failed) <= db.failed
      ensures ok <==> boot != "" && db.failed == old(db.failed) && HasWayUp(old(db.content).rows, boot, path)
      ensures LacksContainer(old(db.content).rows, boot, path) ==> !ok && db.content == old(db.content)
    {
      hide Rooted, Found, ParentPath, Climb, WellLaid, GoodWrites, Applied, Creates, CreatesPart, ChosenRow,
           WithAttributes,
           Attached, IsOwnWrite;
      ghost var before := db.content.rows;
      NothingWritten(before, boot, path);
      NothingWritten(before, boot, ParentPath(path));
      ok, id, ancestors, own, placed := false, -1, [], [], false;
      if boot == "" {
        return;
      }
      var parentPath := ParentPath(path);
      var parent := FindAncestor(parentPath, boot);
      if parent == -1 {
        if parentPath == ROOT || parentPath == PCI_ROOT {
          return;
        }
        parent, ancestors := CreateVirtual(parentPath, boot);
        LaidFromParent(before, boot, path, ancestors);
        NothingWritten(db.content.rows, boot, path);
        if parent == -1 {
          return;
        }
        AttachedCarries(db.content.rows, boot, parentPath, parent);
      }
      placed := true;
      ok, id, own := StoreDevice(path, subsystem, hash, boot, parent, list);
      if ok {
        OwnWriteSays(own[0], path, subsystem, hash, parent);
      } else {
        NothingWritten(db.content.rows, boot, path);
      }
    }

    /** The device and its attributes in one transaction, or nothing. */
    method StoreDevice(path: string, subsystem: string, hash: string, boot: string, parent: int,
                       list: seq<(string, string)>)
      returns (ok: bool, id: int, ghost own: seq<Row>)
      requires db.Valid() && db.saved == None && Carries(db.content.rows, boot, parent) &&
               db.content.rows[parent].devpath == ParentPath(path)
      modifies db
      ensures db.Valid() && db.saved == None
      ensures !ok ==> own == [] && db.content == old(db.content)
      ensures ok ==>
                && GoodWrites(old(db.content).rows, boot, own) && |own| == 1 && own[0].id == id
                && IsOwnWrite(own[0], path, subsystem, hash, parent)
                && ChosenRow(old(db.content).rows, path, subsystem, hash, parent, id)
                && db.content == old(db.content).(rows := Applied(old(db.content).rows, own),
                                                  attributes := WithAttributes(old(db.content).attributes, id, list))
                && Attached(db.content.rows, boot, path, subsystem, hash, id)
      ensures old(db.failed) <= db.failed && (ok <==> db.failed == old(db.failed))
    {
      hide ParentPath, GoodWrites, Applied, ChosenRow, WithAttributes, Attached, IsOwnWrite;
      ok, id, own := false, -1, [];
      var began := db.BeginTransaction();
      if !began {
        return;
      }
      ghost var written;
      id, written := WriteDevice(path, subsystem, hash, boot, parent);
      if id == -1 {
        db.RollbackTransaction();
        return;
      }
      var stored := AddAttributes(id, list);
      if !stored {
        db.RollbackTransaction();
        return;
      }
      ok := db.CommitTransaction();
      if !ok {
        // The connection is closed with the transaction still open.
        db.RollbackTransaction();
        return;
      }
      own := written;
    }
  }

  lemma AttachedCarries(t: Table, boot: string, path: string, id: int)
    requires Attached(t, boot, path, VIRTUAL, VirtualHash(path), id)
    ensures Carries(t, boot, id) && t[id].devpath == path
  {
    hide VirtualHash, ParentPath;
  }

  lemma OwnWriteSays(w: Row, path: string, subsystem: string, hash: string, parent: int)
    requires IsOwnWrite(w, path, subsystem, hash, parent)
    ensures w.devpath == path && w.subsystem == subsystem && w.hash == hash && w.parentId == parent
  {
  }

  /** The parent is there, or is not one of the containers, which are never created. */
  predicate HasWayUp(t: Table, boot: string, path: string) {
    Found(t, boot, ParentPath(path)) || (ParentPath(path) != ROOT && ParentPath(path) != PCI_ROOT)
  }

  predicate LacksContainer(t: Table, boot: string, path: string) {
    (ParentPath(path) == "/devices" || ParentPath(path) == "/devices/pci0000:00") && !Found(t, boot, ParentPath(path))
  }

  predicate IsOccurrence(r: Row, hash: string, subsystem: string, parent: int) {
    r.hash == hash && r.subsystem == subsystem && r.parentId == parent
  }

  predicate IsVirtualAt(r: Row, path: string) {
    r.devpath == path && r.subsystem == VIRTUAL
  }
}
