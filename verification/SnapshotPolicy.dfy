/** The snapshot's evaluator: in-memory indexes instead of database queries. */
module SnapshotPolicy {
  import opened Common
  import opened DeviceTable
  import opened TreePaths
  import opened CategoryPolicy
  import opened EffectivePolicy

  datatype WalkError = CycleDetected | MissingParent

  function IdentityKey(hash: string, subsystem: string): string {
    hash + "\0" + subsystem
  }

  /** Text columns are read as C strings. */
  ghost predicate NulFree(rows: seq<Row>) {
    forall r :: r in rows ==> '\0' !in r.hash
  }

  lemma IdentityKeyInjective(h1: string, s1: string, h2: string, s2: string)
    requires '\0' !in h1 && '\0' !in h2
    ensures IdentityKey(h1, s1) == IdentityKey(h2, s2) <==> h1 == h2 && s1 == s2
  {
    if IdentityKey(h1, s1) == IdentityKey(h2, s2) {
      var k := IdentityKey(h1, s1);
      assert k[|h1|] == '\0' && k[|h2|] == '\0';
      assert forall i :: 0 <= i < |h1| ==> k[i] == h1[i];
      assert forall i :: 0 <= i < |h2| ==> k[i] == h2[i];
      assert |h1| == |h2|;
      assert k[..|h1|] == h1 && k[..|h2|] == h2 && k[|h1| + 1..] == s1 && k[|h2| + 1..] == s2;
    }
  }

  // ----- the indexes

  function At(index: map<string, seq<Row>>, key: string): seq<Row> {
    if key in index then index[key] else []
  }

  lemma {:induction false} OccurrencesSnoc(rows: seq<Row>, r: Row, hash: string, subsystem: string)
    ensures Occurrences(rows + [r], hash, subsystem) ==
            Occurrences(rows, hash, subsystem) + (if r.hash == hash && r.subsystem == subsystem then [r] else [])
  {
    if rows == [] {
      assert rows + [r] == [r] && [r][1..] == [];
    } else {
      assert (rows + [r])[1..] == rows[1..] + [r];
      OccurrencesSnoc(rows[1..], r, hash, subsystem);
    }
  }

  /** The identity index answers every lookup as the query would. */
  ghost predicate IndexesIdentities(index: map<string, seq<Row>>, rows: seq<Row>) {
    forall h, s :: '\0' !in h ==> At(index, IdentityKey(h, s)) == Occurrences(rows, h, s)
  }

  lemma IndexAppend(index: map<string, seq<Row>>, rows: seq<Row>, r: Row)
    requires IndexesIdentities(index, rows) && '\0' !in r.hash
    ensures var key := IdentityKey(r.hash, r.subsystem);
            IndexesIdentities(index[key := At(index, key) + [r]], rows + [r])
  {
    hide IdentityKey, Occurrences;
    var key := IdentityKey(r.hash, r.subsystem);
    var after := index[key := At(index, key) + [r]];
    forall h, s | '\0' !in h ensures At(after, IdentityKey(h, s)) == Occurrences(rows + [r], h, s) {
      IdentityKeyInjective(h, s, r.hash, r.subsystem);
      OccurrencesSnoc(rows, r, h, s);
    }
  }

  /** The id index holds exactly the rows read so far. */
  ghost predicate IndexesIds(byId: map<int, Row>, rows: seq<Row>) {
    && (forall k :: 0 <= k < |rows| ==> rows[k].id in byId)
    && (forall id :: id in byId ==> byId[id] in rows && byId[id].id == id)
  }

  lemma IdsAppend(byId: map<int, Row>, rows: seq<Row>, r: Row)
    requires IndexesIds(byId, rows)
    ensures IndexesIds(if r.id in byId then byId else byId[r.id := r], rows + [r])
  {
  }

  method BuildIndexes(t: Table) returns (byId: map<int, Row>, identities: map<string, seq<Row>>)
    requires ValidTable(t) && NulFree(ById(t))
    ensures byId == t
    ensures IndexesIdentities(identities, ById(t))
  {
    hide IdentityKey, IndexesIdentities, IndexesIds, ById, At;
    byId, identities := map[], map[];
    var rows := ById(t);
    assert rows[..0] == [];
    EmptyIndex();
    for i := 0 to |rows|
      invariant IndexesIds(byId, rows[..i])
      invariant IndexesIdentities(identities, rows[..i])
    {
      var device := rows[i];
      assert device in rows;
      IdsAppend(byId, rows[..i], device);
      if device.id !in byId {
        byId := byId[device.id := device];
      }
      IndexAppend(identities, rows[..i], device);
      var key := IdentityKey(device.hash, device.subsystem);
      identities := identities[key := At(identities, key) + [device]];
      assert rows[..i + 1] == rows[..i] + [device];
    }
    assert rows[..|rows|] == rows;
    ListsWholeTable(t, byId);
  }

  lemma ListsWholeTable(t: Table, byId: map<int, Row>)
    requires ValidTable(t) && IndexesIds(byId, ById(t))
    ensures byId == t
  {
    hide ById;
    var rows := ById(t);
    ByIdExact(t);
    forall id | id in t ensures id in byId {
      var r := t[id];
      assert r in rows;
      var k :| 0 <= k < |rows| && rows[k] == r;
    }
    TablesEqual(byId, t);
  }

  lemma EmptyIndex()
    ensures IndexesIdentities(map[], []) && IndexesIds(map[], [])
  {
  }

  // ----- the guarded walk

  datatype Walked = NoRule | RuleAt(row: Row) | Failed(error: WalkError)

  function Walk(t: Table, parentId: int, visited: set<int>): Walked
    requires ValidTable(t)
    decreases |t.Keys - visited|
  {
    if parentId <= 0 then NoRule
    else if parentId in visited then Failed(CycleDetected)
    else if parentId !in t then Failed(MissingParent)
    else if t[parentId].children != Inherit then RuleAt(t[parentId])
    else
      assert t.Keys - (visited + {parentId}) == (t.Keys - visited) - {parentId};
      Walk(t, t[parentId].parentId, visited + {parentId})
  }

  method WalkParents(byId: map<int, Row>, device: Row) returns (walked: Walked)
    requires ValidTable(byId)
    ensures walked == Walk(byId, device.parentId, {device.id})
  {
    var visited := {device.id};
    var parentId := device.parentId;
    while parentId > 0
      invariant Walk(byId, device.parentId, {device.id}) == Walk(byId, parentId, visited)
      decreases |byId.Keys - visited|
    {
      if parentId in visited {
        return Failed(CycleDetected);
      }
      visited := visited + {parentId};
      if parentId !in byId {
        return Failed(MissingParent);
      }
      if byId[parentId].children != Inherit {
        return RuleAt(byId[parentId]);
      }
      assert byId.Keys - visited == (byId.Keys - (visited - {parentId})) - {parentId};
      parentId := byId[parentId].parentId;
    }
    return NoRule;
  }

  /** What the daemon's path says above its first row. */
  lemma {:induction false} WalkIsNearest(t: Table, x: Row, parentId: int, visited: set<int>)
    requires ValidTable(t)
    ensures var rest := if parentId > 0 && parentId in t then PathFrom(t, t[parentId], None, visited) else [];
            match Walk(t, parentId, visited)
            case RuleAt(r) => NearestRule([x] + rest) == Some(r)
            case NoRule => NearestRule([x] + rest) == None
            case Failed(_) => true
    decreases |t.Keys - visited|
  {
    if parentId > 0 && parentId in t && parentId !in visited {
      var p := t[parentId];
      var rest := PathFrom(t, p, None, visited);
      assert ([x] + rest)[1..] == rest;
      if p.children == Inherit {
        assert t.Keys - (visited + {parentId}) == (t.Keys - visited) - {parentId};
        WalkIsNearest(t, p, p.parentId, visited + {parentId});
        var above := if p.parentId > 0 && p.parentId in t then
          PathFrom(t, t[p.parentId], None, visited + {parentId}) else [];
        assert rest == [p] + above;
      }
    }
  }

  // ----- when the walk fails

  /** The n-th parent link is broken or closes a cycle, and no row passed on the way to it
      carries a children rule. */
  ghost predicate StuckAt(t: Table, id: int, n: nat) {
    && n > 0 && Up(t, id, n) > 0
    && (forall i: nat :: 1 <= i < n ==> Up(t, id, i) in t && t[Up(t, id, i)].children == Inherit)
    && (Up(t, id, n) !in t || exists m: nat :: m < n && Up(t, id, m) == Up(t, id, n))
  }

  ghost predicate Stuck(t: Table, id: int) {
    exists n: nat :: StuckAt(t, id, n)
  }

  /** The broken link is the reason. */
  ghost predicate BrokenAt(t: Table, id: int, n: nat) {
    StuckAt(t, id, n) && Up(t, id, n) !in t
  }

  ghost predicate Broken(t: Table, id: int) {
    exists n: nat :: BrokenAt(t, id, n)
  }

  /** Behind a repeated row no link is broken. */
  lemma {:induction false} NotBrokenBeyond(t: Table, id: int, m: nat, n: nat, k: nat)
    requires ValidTable(t) && id in t && m < n <= k && Up(t, id, m) == Up(t, id, n) && Up(t, id, m) in t
    ensures !BrokenAt(t, id, k)
  {
    hide Up;
    UpCompose(t, id, m, k - n);
    UpCompose(t, id, n, k - n);
    assert Up(t, id, m + (k - n)) == Up(t, id, k);
  }

  ghost function Passed(t: Table, id: int, n: nat): set<int> {
    set i: nat | 0 <= i < n :: Up(t, id, i)
  }

  lemma {:induction false} NotStuckBeyond(t: Table, id: int, n: nat, k: nat)
    requires 0 < n <= k && ValidTable(t)
    requires Up(t, id, n) <= 0 ||
             (Up(t, id, n) in t && t[Up(t, id, n)].children != Inherit && Up(t, id, n) !in Passed(t, id, n))
    ensures !StuckAt(t, id, k)
  {
    var p := Up(t, id, n);
    if k == n {
      assert forall m: nat :: m < n ==> Up(t, id, m) in Passed(t, id, n);
    }
  }

  ghost predicate StuckFrom(t: Table, id: int, n: nat) {
    exists k: nat :: k >= n && StuckAt(t, id, k)
  }

  ghost predicate BrokenFrom(t: Table, id: int, n: nat) {
    exists k: nat :: k >= n && BrokenAt(t, id, k)
  }

  /** No row with a children rule, and none missing, was passed on the way. */
  ghost predicate SilentTo(t: Table, id: int, n: nat) {
    forall i: nat :: 1 <= i < n ==> Up(t, id, i) in t && t[Up(t, id, i)].children == Inherit
  }

  lemma {:induction false} CycleHere(t: Table, id: int, n: nat)
    requires ValidTable(t) && id in t && n > 0 && SilentTo(t, id, n) && Up(t, id, n) > 0
    requires Up(t, id, n) in Passed(t, id, n)
    ensures StuckFrom(t, id, n) && !BrokenFrom(t, id, n)
  {
    hide Up;
    assert StuckAt(t, id, n);
    var m: nat :| m < n && Up(t, id, m) == Up(t, id, n);
    UpNone(t, id);
    assert Up(t, id, m) in t;
    forall k: nat | k >= n ensures !BrokenAt(t, id, k) {
      NotBrokenBeyond(t, id, m, n, k);
    }
  }

  lemma {:induction false} MissingHere(t: Table, id: int, n: nat)
    requires n > 0 && SilentTo(t, id, n) && Up(t, id, n) > 0 && Up(t, id, n) !in t
    ensures StuckFrom(t, id, n) && BrokenFrom(t, id, n)
  {
    hide Up;
    assert StuckAt(t, id, n) && BrokenAt(t, id, n);
  }

  lemma {:induction false} GoesOn(t: Table, id: int, n: nat)
    requires n > 0 && Up(t, id, n) in t && Up(t, id, n) !in Passed(t, id, n)
    ensures StuckFrom(t, id, n) <==> StuckFrom(t, id, n + 1)
    ensures BrokenFrom(t, id, n) <==> BrokenFrom(t, id, n + 1)
  {
    hide Up;
    assert !StuckAt(t, id, n) && !BrokenAt(t, id, n) by {
      assert forall m: nat :: m < n ==> Up(t, id, m) in Passed(t, id, n);
    }
    hide StuckAt, BrokenAt;
    if k: nat :| k >= n && StuckAt(t, id, k) {
      assert k >= n + 1;
    }
    if k: nat :| k >= n && BrokenAt(t, id, k) {
      assert k >= n + 1;
    }
  }

  lemma {:induction false} EndsHere(t: Table, id: int, n: nat)
    requires 0 < n && ValidTable(t)
    requires Up(t, id, n) <= 0 ||
             (Up(t, id, n) in t && t[Up(t, id, n)].children != Inherit && Up(t, id, n) !in Passed(t, id, n))
    ensures !StuckFrom(t, id, n) && !BrokenFrom(t, id, n)
  {
    hide Up;
    forall k: nat | k >= n ensures !StuckAt(t, id, k) {
      NotStuckBeyond(t, id, n, k);
    }
  }

  lemma {:induction false} WalkFailsWhenStuck(t: Table, id: int, n: nat)
    requires ValidTable(t) && id in t && n > 0 && SilentTo(t, id, n)
    ensures Walk(t, Up(t, id, n), Passed(t, id, n)).Failed? <==> StuckFrom(t, id, n)
    ensures Walk(t, Up(t, id, n), Passed(t, id, n)) == Failed(MissingParent) <==> BrokenFrom(t, id, n)
    decreases |t.Keys - Passed(t, id, n)|
  {
    hide Up, StuckFrom, BrokenFrom, SilentTo, Passed;
    var p, passed := Up(t, id, n), Passed(t, id, n);
    UpLast(t, id, n);
    if p > 0 && p in passed {
      CycleHere(t, id, n);
    } else if p > 0 && p !in t {
      MissingHere(t, id, n);
    } else if p > 0 && t[p].children == Inherit {
      PassedNext(t, id, n);
      assert t.Keys - (passed + {p}) == (t.Keys - passed) - {p};
      WalkFailsWhenStuck(t, id, n + 1);
      GoesOn(t, id, n);
    } else {
      EndsHere(t, id, n);
    }
  }

  lemma {:induction false} PassedNext(t: Table, id: int, n: nat)
    requires SilentTo(t, id, n) && Up(t, id, n) in t && t[Up(t, id, n)].children == Inherit
    ensures Passed(t, id, n + 1) == Passed(t, id, n) + {Up(t, id, n)} && SilentTo(t, id, n + 1)
  {
    hide Up;
  }

  lemma {:induction false} UpNone(t: Table, id: int)
    ensures Up(t, id, 0) == id
  {
  }

  /** The snapshot's walk fails exactly on a missing parent or a cycle that is reached before any
      ancestor with a children rule, and says which. */
  lemma {:induction false} WalkFailsExactly(t: Table, id: int)
    requires ValidTable(t) && id in t
    ensures Walk(t, t[id].parentId, {id}).Failed? <==> Stuck(t, id)
    ensures Walk(t, t[id].parentId, {id}) == Failed(MissingParent) <==> Broken(t, id)
  {
    assert Up(t, id, 1) == Up(t, t[id].parentId, 0) == t[id].parentId;
    assert Passed(t, id, 1) == {id} by { assert Up(t, id, 0) == id; }
    WalkFailsWhenStuck(t, id, 1);
    if Stuck(t, id) {
      var n: nat :| StuckAt(t, id, n);
      assert n >= 1;
    }
    if Broken(t, id) {
      var n: nat :| BrokenAt(t, id, n);
      assert n >= 1;
    }
  }

  // ----- the evaluator

  /** No decision is reached before the hierarchy is consulted. */
  ghost predicate ReachesHierarchy(db: Database, d: Row) {
    && CategoryDenial(db.categories, d.subsystem, d.devpath, db.AttributesOf(d.id), false) == None
    && FirstIdentityRule(Occurrences(ById(db.rows), d.hash, d.subsystem), None) == None
    && !d.explicit
  }

  /** The snapshot's evaluation refines the daemon's: where it succeeds it gives the daemon's level,
      source and source id; it fails exactly when the hierarchy decides and the walk is stuck. */
  method SnapshotEffective(db: Database, byId: map<int, Row>, identities: map<string, seq<Row>>, d: Row)
    returns (result: Result<Policy, WalkError>)
    requires db.Valid() && byId == db.rows && IndexesIdentities(identities, ById(db.rows))
    requires d.id in db.rows && db.rows[d.id] == d && '\0' !in d.hash
    ensures result.Ok? ==> result.value == Effective(db, d, None, None)
    ensures result.Err? <==> ReachesHierarchy(db, d) && Stuck(db.rows, d.id)
    ensures result.Err? ==> (result.error == MissingParent <==> Broken(db.rows, d.id))
  {
    hide CategoryDenial, FirstIdentityRule, Occurrences, ById, NearestRule, PathFrom, Stuck, Broken, Walk, IdentityKey;
    var attributes := db.AttributesOf(d.id);
    HardFirst(db.categories, d.subsystem, d.devpath, attributes);
    var hard := DecideCategoryDenial(db.categories, d.subsystem, d.devpath, attributes, true);
    if hard.Some? {
      return Ok(Policy(Blocked, CategorySource(hard.value), d.id));
    }
    var key := IdentityKey(d.hash, d.subsystem);
    assert At(identities, key) == Occurrences(ById(db.rows), d.hash, d.subsystem);
    var identity := FindIdentityRule(At(identities, key), None);
    if identity.Some? {
      return Ok(Policy(identity.value.level, IdentitySource(identity.value.id), identity.value.id));
    }
    if d.explicit {
      return Ok(Policy(d.level, PlacementSource(d.id), d.id));
    }
    var unknown := DecideCategoryDenial(db.categories, d.subsystem, d.devpath, attributes, false);
    if unknown.Some? {
      return Ok(Policy(Blocked, CategorySource(unknown.value), d.id));
    }
    var walked := WalkParents(byId, d);
    WalkFailsExactly(db.rows, d.id);
    PathFromDevice(db.rows, d);
    WalkIsNearest(db.rows, d, d.parentId, {d.id});
    match walked {
      case NoRule =>
        return Ok(Policy(Allowed, Default, -1));
      case RuleAt(parent) =>
        return Ok(Policy(if parent.children == DenyChildren then
            Blocked else Allowed, ChildrenSource(parent.id), parent.id));
      case Failed(error) =>
        return Err(error);
    }
  }

  lemma HardFirst(state: CategoryState, subsystem: string, devpath: string, attributes: Attributes)
    ensures CategoryDenial(state, subsystem, devpath, attributes, false) == None ==>
              CategoryDenial(state, subsystem, devpath, attributes, true) == None
  {
  }

  lemma {:induction false} PathFromDevice(t: Table, d: Row)
    requires ValidTable(t) && d.id in t && t[d.id] == d
    ensures PathToRoot(t, d, None) ==
            [d] + (if d.parentId > 0 && d.parentId in t then PathFrom(t, t[d.parentId], None, {d.id}) else [])
  {
    assert {} + {d.id} == {d.id};
  }
}
