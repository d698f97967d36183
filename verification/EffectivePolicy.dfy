/** The daemon's own evaluation of the effective policy, walking the database. */
module EffectivePolicy {
  import opened Common
  import opened DeviceTable
  import opened TreePaths
  import opened CategoryPolicy

  datatype Source = Default | CategorySource(denial: Denial) | IdentitySource(id: int) | PlacementSource(id: int)
    | ChildrenSource(id: int)

  datatype Policy = Policy(level: ControlLevel, source: Source, sourceId: int)

  /** A control change that is previewed before it is written. */
  datatype Override = Override(
    deviceId: int, level: ControlLevel, explicit: bool, ignoreHierarchy: bool, children: ChildrenControl)

  datatype Database = Database(rows: Table, attributes: map<int, Attributes>, categories: CategoryState)
  {
    ghost predicate Valid() {
      ValidTable(rows)
    }

    function AttributesOf(id: int): Attributes {
      if id in attributes then attributes[id] else map[]
    }
  }

  function WithOverride(r: Row, ov: Option<Override>): Row {
    if ov.Some? && r.id == ov.value.deviceId then
      r.(level := ov.value.level, explicit := ov.value.explicit,
         ignoreHierarchy := ov.value.ignoreHierarchy, children := ov.value.children)
    else r
  }

  // ----- the parent walk

  /** The device and its ancestors up to the root, a missing parent or the first repetition. */
  function PathFrom(t: Table, device: Row, ov: Option<Override>, seen: set<int>): (path: seq<Row>)
    requires ValidTable(t)
    decreases |t.Keys - seen|, if device.id in t then 0 else 1
  {
    if device.id <= 0 || device.id in seen then []
    else if device.parentId <= 0 || device.parentId !in t then [device]
    else
      assert device.id in t ==> t.Keys - (seen + {device.id}) == (t.Keys - seen) - {device.id};
      assert device.id !in t ==> t.Keys - (seen + {device.id}) == t.Keys - seen;
      [device] + PathFrom(t, WithOverride(t[device.parentId], ov), ov, seen + {device.id})
  }

  function PathToRoot(t: Table, device: Row, ov: Option<Override>): seq<Row>
    requires ValidTable(t)
  {
    PathFrom(t, WithOverride(device, ov), ov, {})
  }

  lemma {:induction false} PathUnfold(t: Table, device: Row, ov: Option<Override>, seen: set<int>)
    requires ValidTable(t)
    ensures PathFrom(t, device, ov, seen) ==
            if device.id <= 0 || device.id in seen then []
            else if device.parentId <= 0 || device.parentId !in t then [device]
            else [device] + PathFrom(t, WithOverride(t[device.parentId], ov), ov, seen + {device.id})
  {
  }

  /** Each step of the walk uses up a row of the table, or leaves a row outside it. */
  lemma FewerLeft(t: Table, id: int, seen: set<int>)
    requires id !in seen
    ensures |t.Keys - (seen + {id})| == |t.Keys - seen| - (if id in t then 1 else 0)
  {
    assert id in t ==> t.Keys - (seen + {id}) == (t.Keys - seen) - {id};
    assert id !in t ==> t.Keys - (seen + {id}) == t.Keys - seen;
  }

  lemma OverrideKeepsId(r: Row, ov: Option<Override>)
    ensures WithOverride(r, ov).id == r.id
  {
  }

  method DevicePathToRoot(t: Table, device: Row, ov: Option<Override>) returns (path: seq<Row>)
    requires ValidTable(t)
    ensures path == PathToRoot(t, device, ov)
  {
    hide PathFrom, WithOverride;
    path := [];
    var seen: set<int> := {};
    var current := WithOverride(device, ov);
    ghost var whole := PathToRoot(t, device, ov);
    hide PathToRoot;
    while current.id > 0 && current.id !in seen
      invariant whole == path + PathFrom(t, current, ov, seen)
      decreases |t.Keys - seen|, if current.id in t then 0 else 1
    {
      PathUnfold(t, current, ov, seen);
      FewerLeft(t, current.id, seen);
      seen, path := seen + {current.id}, path + [current];
      if current.parentId <= 0 {
        return;
      }
      var parent := Lookup(t, current.parentId);
      if parent == None {
        return;
      }
      OverrideKeepsId(parent.value, ov);
      current := WithOverride(parent.value, ov);
      assert current.id in t;
    }
    PathUnfold(t, current, ov, seen);
  }

  /** The nearest strict ancestor with a children rule decides. */
  function NearestRule(path: seq<Row>): Option<Row>
    decreases |path|
  {
    if |path| <= 1 then None
    else if path[1].children != Inherit then Some(path[1])
    else NearestRule(path[1..])
  }

  // ----- same-identity rows, ORDER BY id

  function Occurrences(rows: seq<Row>, hash: string, subsystem: string): (found: seq<Row>)
    ensures forall r :: r in found ==> r in rows && r.hash == hash && r.subsystem == subsystem
  {
    if rows == [] then []
    else if rows[0].hash == hash && rows[0].subsystem == subsystem then
        [rows[0]] + Occurrences(rows[1..], hash, subsystem)
    else Occurrences(rows[1..], hash, subsystem)
  }

  /** The first occurrence that carries an explicit rule with ignore_hierarchy. */
  function FirstIdentityRule(found: seq<Row>, ov: Option<Override>): Option<Row> {
    if found == [] then None
    else
      var r := WithOverride(found[0], ov);
      if r.explicit && r.ignoreHierarchy then Some(r) else FirstIdentityRule(found[1..], ov)
  }

  // ----- the decision

  /** The order of decisions: absolute category, identity, placement, new category, ancestor, allow. */
  function Resolve(d: Row, hard: Option<Denial>, identity: Option<Row>, unknown: Option<Denial>,
                   parent: Option<Row>): Policy
  {
    if hard.Some? then Policy(Blocked, CategorySource(hard.value), d.id)
    else if identity.Some? then Policy(identity.value.level, IdentitySource(identity.value.id), identity.value.id)
    else if d.explicit then Policy(d.level, PlacementSource(d.id), d.id)
    else if unknown.Some? then Policy(Blocked, CategorySource(unknown.value), d.id)
    else if parent.Some? then
      Policy(if parent.value.children == DenyChildren then
        Blocked else Allowed, ChildrenSource(parent.value.id), parent.value.id)
    else Policy(Allowed, Default, -1)
  }

  function Effective(db: Database, device: Row, ov: Option<Override>, live: Option<Attributes>): Policy
    requires db.Valid()
  {
    var d := WithOverride(device, ov);
    var attributes := if live.Some? then live.value else db.AttributesOf(d.id);
    Resolve(d,
      CategoryDenial(db.categories, d.subsystem, d.devpath, attributes, true),
      FirstIdentityRule(Occurrences(ById(db.rows), d.hash, d.subsystem), ov),
      CategoryDenial(db.categories, d.subsystem, d.devpath, attributes, false),
      NearestRule(PathToRoot(db.rows, d, ov)))
  }

  method FindIdentityRule(found: seq<Row>, ov: Option<Override>) returns (rule: Option<Row>)
    ensures rule == FirstIdentityRule(found, ov)
  {
    for i := 0 to |found|
      invariant FirstIdentityRule(found, ov) == FirstIdentityRule(found[i..], ov)
    {
      var candidate := WithOverride(found[i], ov);
      assert found[i..][1..] == found[i + 1..];
      if candidate.explicit && candidate.ignoreHierarchy {
        return Some(candidate);
      }
    }
    return None;
  }

  method FindNearestRule(path: seq<Row>) returns (rule: Option<Row>)
    ensures rule == NearestRule(path)
  {
    var i := 1;
    while i < |path|
      invariant 1 <= i && (|path| == 0 || i <= |path|)
      invariant |path| > 0 ==> NearestRule(path) == NearestRule(path[i - 1..])
    {
      assert path[i - 1..][1] == path[i] && path[i - 1..][1..] == path[i..];
      if path[i].children != Inherit {
        return Some(path[i]);
      }
      i := i + 1;
    }
    return None;
  }

  method EvaluateEffective(db: Database, device: Row, ov: Option<Override>, live: Option<Attributes>)
    returns (policy: Policy)
    requires db.Valid()
    ensures policy == Effective(db, device, ov, live)
  {
    hide CategoryDenial, Occurrences, ById, FirstIdentityRule, NearestRule, PathToRoot;
    var d := WithOverride(device, ov);
    var attributes := if live.Some? then live.value else db.AttributesOf(d.id);
    var hard := DecideCategoryDenial(db.categories, d.subsystem, d.devpath, attributes, true);
    if hard.Some? {
      return Policy(Blocked, CategorySource(hard.value), d.id);
    }
    var path := DevicePathToRoot(db.rows, d, ov);
    var identity := FindIdentityRule(Occurrences(ById(db.rows), d.hash, d.subsystem), ov);
    if identity.Some? {
      return Policy(identity.value.level, IdentitySource(identity.value.id), identity.value.id);
    }
    if d.explicit {
      return Policy(d.level, PlacementSource(d.id), d.id);
    }
    var unknown := DecideCategoryDenial(db.categories, d.subsystem, d.devpath, attributes, false);
    if unknown.Some? {
      return Policy(Blocked, CategorySource(unknown.value), d.id);
    }
    var parent := FindNearestRule(path);
    if parent.Some? {
      return Policy(if parent.value.children == DenyChildren then Blocked else Allowed,
                    ChildrenSource(parent.value.id), parent.value.id);
    }
    return Policy(Allowed, Default, -1);
  }

  // ----- the walk in terms of parent links

  /** Row i of the path is the i-th parent. */
  lemma {:induction false} PathIsUp(t: Table, device: Row, ov: Option<Override>, seen: set<int>, i: nat)
    requires ValidTable(t) && i < |PathFrom(t, device, ov, seen)|
    requires device.id in t && WithOverride(t[device.id], ov) == device
    ensures PathFrom(t, device, ov, seen)[i].id == Up(t, device.id, i)
    ensures Up(t, device.id, i) in t && PathFrom(t, device, ov, seen)[i] == WithOverride(t[Up(t, device.id, i)], ov)
    decreases i
  {
    if i > 0 {
      PathIsUp(t, WithOverride(t[device.parentId], ov), ov, seen + {device.id}, i - 1);
    }
  }

  /** A row carrying an identity rule for (hash, subsystem). */
  predicate IdentityRuleFor(r: Row, hash: string, subsystem: string, ov: Option<Override>) {
    r.hash == hash && r.subsystem == subsystem && WithOverride(r, ov).explicit && WithOverride(r, ov).ignoreHierarchy
  }

  /** `r` carries the identity rule with the smallest id. */
  ghost predicate SmallestRule(rows: seq<Row>, r: Row, hash: string, subsystem: string, ov: Option<Override>) {
    r in rows && IdentityRuleFor(r, hash, subsystem, ov) &&
    forall other :: other in rows && IdentityRuleFor(other, hash, subsystem, ov) ==> r.id <= other.id
  }

  /** Independent of any list: the rule found is the one with the smallest id. */
  lemma {:induction false} IdentityRuleIsMinimal(rows: seq<Row>, hash: string, subsystem: string, ov: Option<Override>)
    requires forall i, j :: 0 <= i < j < |rows| ==> rows[i].id < rows[j].id
    ensures var first := FirstIdentityRule(Occurrences(rows, hash, subsystem), ov);
            && (first == None <==> forall r :: r in rows ==> !IdentityRuleFor(r, hash, subsystem, ov))
            && (first.Some? ==>
                  exists r :: SmallestRule(rows, r, hash, subsystem, ov) && first.value == WithOverride(r, ov))
  {
    if rows != [] {
      var head, tail := rows[0], rows[1..];
      IdentityRuleIsMinimal(tail, hash, subsystem, ov);
      assert forall r :: r in rows <==> r == head || r in tail;
      var rest := Occurrences(tail, hash, subsystem);
      if IdentityRuleFor(head, hash, subsystem, ov) {
        assert SmallestRule(rows, head, hash, subsystem, ov);
      } else {
        if head.hash == hash && head.subsystem == subsystem {
          assert ([head] + rest)[1..] == rest;
        }
        assert FirstIdentityRule(Occurrences(rows, hash, subsystem), ov) == FirstIdentityRule(rest, ov);
        if r :| SmallestRule(tail, r, hash, subsystem, ov) && FirstIdentityRule(rest, ov) == Some(WithOverride(r, ov)) {
          assert SmallestRule(rows, r, hash, subsystem, ov);
        }
      }
    }
  }
}
