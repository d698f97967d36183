/** The effective policy of a stored device read off the table, without any walk, and what a children
    rule on one row does to the rows below it. */
module PolicyMeaning {
  import opened Common
  import opened DeviceTable
  import opened TreePaths
  import opened CategoryPolicy
  import opened EffectivePolicy
  import opened PolicyOverride

  /** Row `id` has the device's identity and an explicit rule that ignores the hierarchy. */
  predicate Carries(t: Table, id: int, d: Row) {
    id in t && t[id].hash == d.hash && t[id].subsystem == d.subsystem && t[id].explicit && t[id].ignoreHierarchy
  }

  ghost predicate FirstCarrier(t: Table, id: int, d: Row) {
    Carries(t, id, d) && forall other :: Carries(t, other, d) ==> id <= other
  }

  ghost predicate NoCarrier(t: Table, d: Row) {
    forall id :: !Carries(t, id, d)
  }

  /** The n-th ancestor exists, is not the row itself and leaves its children alone. */
  predicate Silent(t: Table, id: int, n: nat) {
    Up(t, id, n) in t && Up(t, id, n) != id && t[Up(t, id, n)].children == Inherit
  }

  /** The nearest ancestor with a children rule is the n-th one. */
  ghost predicate RuledAt(t: Table, id: int, n: nat) {
    n > 0 && Up(t, id, n) in t && Up(t, id, n) != id && t[Up(t, id, n)].children != Inherit &&
    forall j: nat :: 0 < j < n ==> Silent(t, id, j)
  }

  ghost predicate NoRuleAbove(t: Table, id: int) {
    forall n: nat :: !RuledAt(t, id, n)
  }

  // ----- the identity rule

  lemma CarrierIsRule(t: Table, id: int, d: Row)
    requires ValidTable(t)
    ensures Carries(t, id, d) <==> id in t && IdentityRuleFor(t[id], d.hash, d.subsystem, None)
  {
  }

  /** The rows that carry are the listed ones with an identity rule. */
  lemma CarriersListed(t: Table, d: Row)
    requires ValidTable(t)
    ensures forall id :: Carries(t, id, d) ==> id in t && t[id] in ById(t)
    ensures forall r :: r in ById(t) ==> r.id in t && t[r.id] == r
    ensures forall r :: r in ById(t) ==> (IdentityRuleFor(r, d.hash, d.subsystem, None) <==> Carries(t, r.id, d))
  {
    hide ById, IdentityRuleFor, Carries;
    ByIdExact(t);
    forall r | r in ById(t) ensures IdentityRuleFor(r, d.hash, d.subsystem, None) <==> Carries(t, r.id, d) {
      CarrierIsRule(t, r.id, d);
    }
    forall id | Carries(t, id, d) ensures id in t && t[id] in ById(t) {
      CarrierIsRule(t, id, d);
    }
  }

  lemma ListedInOrder(t: Table)
    requires ValidTable(t)
    ensures forall i, j :: 0 <= i < j < |ById(t)| ==> ById(t)[i].id < ById(t)[j].id
  {
    hide ById;
    ByIdExact(t);
  }

  lemma CarrierDecides(t: Table, d: Row, id: int)
    requires ValidTable(t) && FirstCarrier(t, id, d)
    ensures FirstIdentityRule(Occurrences(ById(t), d.hash, d.subsystem), None) == Some(t[id])
  {
    hide ById, Occurrences, FirstIdentityRule, IdentityRuleFor, Carries;
    CarriersListed(t, d);
    ListedInOrder(t);
    IdentityRuleIsMinimal(ById(t), d.hash, d.subsystem, None);
    var rule := FirstIdentityRule(Occurrences(ById(t), d.hash, d.subsystem), None);
    var r :| SmallestRule(ById(t), r, d.hash, d.subsystem, None) && rule.value == WithOverride(r, None);
    assert r.id == id;
  }

  lemma CarrierExact(t: Table, d: Row)
    requires ValidTable(t)
    ensures var rule := FirstIdentityRule(Occurrences(ById(t), d.hash, d.subsystem), None);
            && (NoCarrier(t, d) <==> rule == None)
            && (forall id :: FirstCarrier(t, id, d) ==> rule == Some(t[id]))
  {
    hide ById, Occurrences, FirstIdentityRule, IdentityRuleFor, Carries, SmallestRule;
    CarriersListed(t, d);
    ListedInOrder(t);
    IdentityRuleIsMinimal(ById(t), d.hash, d.subsystem, None);
    hide FirstCarrier;
    forall id | FirstCarrier(t, id, d)
      ensures FirstIdentityRule(Occurrences(ById(t), d.hash, d.subsystem), None) == Some(t[id])
    {
      CarrierDecides(t, d, id);
    }
  }

  // ----- the nearest children rule

  /** The first rule of a path after its start. */
  lemma {:induction false} FirstRule(path: seq<Row>, n: nat)
    requires 0 < n < |path| && path[n].children != Inherit
    requires forall j :: 0 < j < n ==> path[j].children == Inherit
    ensures NearestRule(path) == Some(path[n])
  {
    if n > 1 {
      assert path[1].children == Inherit;
      FirstRule(path[1..], n - 1);
    }
  }

  lemma {:induction false} RuleHasPlace(path: seq<Row>) returns (n: nat)
    requires NearestRule(path) != None
    ensures 0 < n < |path| && path[n].children != Inherit && forall j :: 0 < j < n ==> path[j].children == Inherit
  {
    if path[1].children != Inherit {
      n := 1;
    } else {
      n := RuleHasPlace(path[1..]);
      n := n + 1;
      assert forall j :: 1 < j < n ==> path[j] == path[1..][j - 1];
    }
  }

  /** The walk does not come back to a row it has seen. */
  lemma {:induction false} PathAvoids(t: Table, device: Row, seen: set<int>, i: nat)
    requires ValidTable(t) && i < |PathFrom(t, device, None, seen)|
    ensures PathFrom(t, device, None, seen)[i].id !in seen
    decreases i
  {
    if i > 0 {
      PathAvoids(t, t[device.parentId], seen + {device.id}, i - 1);
    }
  }

  /** `m` further ancestors, all stored, none met before and none twice. */
  ghost predicate FreshAbove(t: Table, id: int, seen: set<int>, m: nat) {
    (forall j: nat :: j <= m ==> Up(t, id, j) in t && Up(t, id, j) !in seen) &&
    forall i: nat, j: nat :: i < j <= m ==> Up(t, id, i) != Up(t, id, j)
  }

  lemma {:induction false} PathReaches(t: Table, id: int, seen: set<int>, m: nat)
    requires ValidTable(t) && FreshAbove(t, id, seen, m)
    ensures Up(t, id, 0) in t && m < |PathFrom(t, t[id], None, seen)|
    decreases m
  {
    assert Up(t, id, 0) == id;
    if m > 0 {
      var parent := t[id].parentId;
      forall j: nat | j < m ensures Up(t, parent, j) == Up(t, id, j + 1) {
      }
      assert Up(t, parent, 0) == parent && Up(t, id, 1) == parent;
      forall i: nat, j: nat | i < j < m ensures Up(t, parent, i) != Up(t, parent, j) {
        assert Up(t, id, i + 1) != Up(t, id, j + 1);
      }
      forall j: nat | j < m ensures Up(t, parent, j) in t && Up(t, parent, j) !in seen + {id} {
        assert Up(t, id, j + 1) != Up(t, id, 0);
      }
      PathReaches(t, parent, seen + {id}, m - 1);
    }
  }

  /** Below the nearest rule no ancestor repeats. */
  lemma {:induction false} NoRepetition(t: Table, id: int, m: nat, i: nat, j: nat)
    requires ValidTable(t) && id in t && RuledAt(t, id, m) && i < j <= m
    ensures Up(t, id, i) != Up(t, id, j)
  {
    assert j < m ==> Silent(t, id, j);
    assert i > 0 ==> Silent(t, id, i) && Silent(t, id, i + (m - j));
    if i > 0 && Up(t, id, i) == Up(t, id, j) {
      UpCompose(t, id, i, m - j);
      UpCompose(t, id, j, m - j);
    }
  }

  lemma {:induction false} RuledWithin(t: Table, id: int, m: nat)
    requires ValidTable(t) && id in t && RuledAt(t, id, m)
    ensures m < |PathFrom(t, t[id], None, {})|
  {
    forall j: nat | j <= m ensures Up(t, id, j) in t {
      assert 0 < j < m ==> Silent(t, id, j);
    }
    forall i: nat, j: nat | i < j <= m ensures Up(t, id, i) != Up(t, id, j) {
      NoRepetition(t, id, m, i, j);
    }
    PathReaches(t, id, {}, m);
  }

  lemma {:induction false} PathRows(t: Table, id: int, n: nat)
    requires ValidTable(t) && id in t && n < |PathFrom(t, t[id], None, {})|
    ensures Up(t, id, n) in t && PathFrom(t, t[id], None, {})[n] == t[Up(t, id, n)]
    ensures n > 0 ==> Up(t, id, n) != id
  {
    PathIsUp(t, t[id], None, {}, n);
    if n > 0 {
      PathUnfold(t, t[id], None, {});
      PathAvoids(t, t[t[id].parentId], {} + {id}, n - 1);
    }
  }

  lemma {:induction false} NearestExact(t: Table, id: int)
    requires ValidTable(t) && id in t
    ensures var rule := NearestRule(PathToRoot(t, t[id], None));
            && (forall n: nat :: RuledAt(t, id, n) ==> rule == Some(t[Up(t, id, n)]))
            && (NoRuleAbove(t, id) <==> rule == None)
  {
    hide PathFrom, NearestRule;
    var path := PathFrom(t, t[id], None, {});
    forall n: nat | n < |path|
      ensures Up(t, id, n) in t && path[n] == t[Up(t, id, n)] && (n > 0 ==> Up(t, id, n) != id)
    {
      PathRows(t, id, n);
    }
    forall n: nat | RuledAt(t, id, n) ensures NearestRule(path) == Some(t[Up(t, id, n)]) {
      RuledWithin(t, id, n);
      forall j: nat | 0 < j < n ensures path[j].children == Inherit {
        assert Silent(t, id, j);
      }
      FirstRule(path, n);
    }
    if NearestRule(path) != None {
      var n := RuleHasPlace(path);
      assert RuledAt(t, id, n);
    }
  }

  // ----- the policy

  /** What the table says about row `id`, decision by decision; `live` attributes go before stored ones. */
  ghost predicate Decided(db: Database, id: int, live: Option<Attributes>, p: Policy)
    requires id in db.rows
  {
    var t, d := db.rows, db.rows[id];
    var seen := if live.Some? then live.value else db.AttributesOf(id);
    var hard := CategoryDenial(db.categories, d.subsystem, d.devpath, seen, true);
    var unknown := CategoryDenial(db.categories, d.subsystem, d.devpath, seen, false);
    if hard.Some? then p == Policy(Blocked, CategorySource(hard.value), id)
    else if !NoCarrier(t, d) then
      exists c :: FirstCarrier(t, c, d) && p == Policy(t[c].level, IdentitySource(c), c)
    else if d.explicit then p == Policy(d.level, PlacementSource(id), id)
    else if unknown.Some? then p == Policy(Blocked, CategorySource(unknown.value), id)
    else if NoRuleAbove(t, id) then p == Policy(Allowed, Default, -1)
    else
      exists n: nat :: RuledAt(t, id, n) &&
        p == Policy(if t[Up(t, id, n)].children == AllowChildren then Allowed else Blocked,
                    ChildrenSource(Up(t, id, n)), Up(t, id, n))
  }

  lemma CarrierFound(t: Table, d: Row) returns (c: int)
    requires ValidTable(t) && !NoCarrier(t, d)
    ensures FirstCarrier(t, c, d) && c in t
  {
    var carriers := set id | id in t && Carries(t, id, d);
    var some :| Carries(t, some, d);
    assert some in carriers;
    c := MinimumExists(carriers);
    forall other | Carries(t, other, d) ensures c <= other {
      assert other in carriers;
    }
  }

  lemma {:induction false} RulePlace(t: Table, id: int, n: nat)
    requires RuledAt(t, id, n)
    ensures Up(t, id, n) in t && t[Up(t, id, n)].children != Inherit
  {
  }

  /** The evaluated policy is what the table says. */
  lemma EffectiveIsDecided(db: Database, id: int, live: Option<Attributes>)
    requires db.Valid() && id in db.rows
    ensures Decided(db, id, live, Effective(db, db.rows[id], None, live))
  {
    hide CategoryDenial, FirstIdentityRule, Occurrences, ById, NearestRule, PathToRoot, FirstCarrier, RuledAt,
         NoCarrier;
    var t, d := db.rows, db.rows[id];
    CarrierExact(t, d);
    NearestExact(t, id);
    if !NoCarrier(t, d) {
      var c := CarrierFound(t, d);
    }
    forall n: nat | RuledAt(t, id, n) ensures Up(t, id, n) in t && t[Up(t, id, n)].children != Inherit {
      RulePlace(t, id, n);
    }
  }

  /** And it is the only policy the table allows. */
  lemma DecisionIsUnique(db: Database, id: int, live: Option<Attributes>, p: Policy, q: Policy)
    requires db.Valid() && id in db.rows && Decided(db, id, live, p) && Decided(db, id, live, q)
    ensures p == q
  {
    hide CategoryDenial, Up;
    forall m: nat, n: nat | RuledAt(db.rows, id, m) && RuledAt(db.rows, id, n) ensures m == n {
      assert m < n ==> Silent(db.rows, id, m);
      assert n < m ==> Silent(db.rows, id, n);
    }
  }

  // ----- what a written children rule does below

  /** No decision before the children rules settles row `id`. */
  ghost predicate Unsettled(db: Database, id: int, live: Option<Attributes>)
    requires id in db.rows
  {
    var d := db.rows[id];
    var seen := if live.Some? then live.value else db.AttributesOf(id);
    CategoryDenial(db.categories, d.subsystem, d.devpath, seen, true) == None && NoCarrier(db.rows, d) &&
    !d.explicit && CategoryDenial(db.categories, d.subsystem, d.devpath, seen, false) == None
  }

  /** The preview of a change at `ov.deviceId`, for every row that then looks to it first: denied exactly
      when the change denies the children. */
  lemma {:induction false} ChildrenRulePreview(db: Database, ov: Override, id: int, n: nat, live: Option<Attributes>)
    requires db.Valid() && id in db.rows && ov.deviceId in db.rows && ov.children != Inherit
    requires n > 0 && id != ov.deviceId && Up(db.rows, id, n) == ov.deviceId
    requires forall j: nat :: 0 < j < n ==> Up(db.rows, id, j) != ov.deviceId && Silent(db.rows, id, j)
    requires Unsettled(Commit(db, ov), id, live)
    ensures Effective(db, db.rows[id], Some(ov), live) ==
            Policy(if ov.children == DenyChildren then Blocked else Allowed, ChildrenSource(ov.deviceId), ov.deviceId)
  {
    hide CategoryDenial, Effective, NoCarrier, Commit;
    var after := Commit(db, ov);
    PreviewEqualsCommit(db, ov, db.rows[id], live);
    CommitRow(db, ov, id);
    forall j: nat ensures Up(after.rows, id, j) == Up(db.rows, id, j) {
      SameLinks(db, ov, id, j);
    }
    assert RuledAt(after.rows, id, n) by {
      forall j: nat | 0 < j < n ensures Silent(after.rows, id, j) {
        assert Silent(db.rows, id, j);
      }
    }
    EffectiveIsDecided(after, id, live);
    var p := Policy(if ov.children == DenyChildren then Blocked else Allowed, ChildrenSource(ov.deviceId), ov.deviceId);
    assert Decided(after, id, live, p);
    DecisionIsUnique(after, id, live, p, Effective(after, after.rows[id], None, live));
  }

  lemma {:induction false} SameLinks(db: Database, ov: Override, id: int, n: nat)
    ensures Up(Commit(db, ov).rows, id, n) == Up(db.rows, id, n)
    decreases n
  {
    if n > 0 && id in db.rows {
      SameLinks(db, ov, db.rows[id].parentId, n - 1);
    }
  }

  /** Such a row, when connected, is one of the blockers of a change that denies the children. */
  lemma {:induction false} DeniedChildBlocks(db: Database, ov: Override, id: int, n: nat)
    requires db.Valid() && id in db.rows && ov.deviceId in db.rows && ov.children == DenyChildren
    requires n > 0 && id != ov.deviceId && Up(db.rows, id, n) == ov.deviceId
    requires forall j: nat :: 0 < j < n ==> Up(db.rows, id, j) != ov.deviceId && Silent(db.rows, id, j)
    requires Unsettled(Commit(db, ov), id, None)
    ensures Affected(db, db.rows[ov.deviceId], id)
    ensures BlockedAfter(db, ov, Blocker(id, ChildrenSource(ov.deviceId)))
  {
    hide CategoryDenial, Effective, Unsettled, Commit;
    ChildrenRulePreview(db, ov, id, n, None);
    PreviewEqualsCommit(db, ov, db.rows[id], None);
    CommitRow(db, ov, id);
    assert Below(db.rows, id, ov.deviceId);
  }
}
