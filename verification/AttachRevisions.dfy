/** What attaches and disconnects do to the promise of matching policy revisions. */
module AttachRevisions {
  import opened Common
  import opened DeviceTable
  import opened RowOrder
  import opened UdevRules
  import opened PolicyCompiler
  import opened PolicyView
  import opened IdentityRules
  import opened RuleOrder
  import opened PolicyRevisions
  import opened MovedCarrier
  import Subtrees = DeviceSubtrees
  import Tree = TreeAttach
  import Policy = EffectivePolicy
  import Preview = PolicyOverride

  /** The world with this device table in its store: the inventory is read in id order. */
  function WithTable(w: World, t: Table): World {
    w.(input := w.input.(inventory := Some(DeviceTable.ById(t))))
  }

  lemma TableDistinct(t: Table)
    requires ValidTable(t)
    ensures DistinctIds(DeviceTable.ById(t))
  {
    hide DeviceTable.ById;
    ByIdExact(t);
  }

  lemma PlaceOf(t: Table, id: int) returns (at: nat)
    requires ValidTable(t) && id in t
    ensures at < |DeviceTable.ById(t)| && DeviceTable.ById(t)[at] == t[id]
  {
    hide DeviceTable.ById;
    ByIdExact(t);
    assert t[id] in DeviceTable.ById(t);
    at :| at < |DeviceTable.ById(t)| && DeviceTable.ById(t)[at] == t[id];
  }

  // ----- one row write as a change

  /** Writing a known row replaces it in its place. */
  lemma KnownRowReplaced(t: Table, x: Row, at: nat)
    requires ValidTable(t) && x.id in t && at < |DeviceTable.ById(t)| && DeviceTable.ById(t)[at] == t[x.id]
    ensures DeviceTable.ById(t[x.id := x]) == DeviceTable.ById(t)[at := x]
  {
    var after := t[x.id := x];
    assert after.Keys == t.Keys;
    var ids := SortedIds(t.Keys);
    TableDistinct(t);
    var a, b := DeviceTable.ById(after), DeviceTable.ById(t)[at := x];
    assert |a| == |b|;
    forall i | 0 <= i < |a| ensures a[i] == b[i] {
      assert a[i] == after[ids[i]] && DeviceTable.ById(t)[i] == t[ids[i]];
      if i != at {
        DistinctAt(DeviceTable.ById(t), i, at);
      }
    }
  }

  /** Writing the control columns of a stored row is the change the revisions count. */
  lemma ControlIsCommit(w: World, db: Policy.Database, ov: Policy.Override, at: nat)
    requires db.Valid() && ov.deviceId in db.rows
    requires at < |DeviceTable.ById(db.rows)| && DeviceTable.ById(db.rows)[at] == db.rows[ov.deviceId]
    ensures var c := SetControl(at, Control(ov.level, ov.explicit, ov.ignoreHierarchy, ov.children));
            var after := Preview.Commit(db, ov);
            Changed(WithTable(w, db.rows), c) ==
            WithTable(w, after.rows).(desired := w.desired + if after.rows == db.rows then 0 else 1)
  {
    hide DeviceTable.ById;
    var t, x := db.rows, Preview.Commit(db, ov).rows[ov.deviceId];
    KnownRowReplaced(t, x, at);
    assert Preview.Commit(db, ov).rows == t[x.id := x];
    var control := Control(ov.level, ov.explicit, ov.ignoreHierarchy, ov.children);
    assert WithControl(t[x.id], control) == x;
    assert ControlOf(t[x.id]) == control <==> x == t[x.id];
    if x == t[x.id] {
      assert t[x.id := x] == t;
    } else {
      assert t[x.id := x][x.id] != t[x.id];
    }
  }

  /** Two listings in id order with the same rows are the same. */
  lemma {:induction false} SameListing(a: seq<Row>, b: seq<Row>)
    requires InIdOrder(a) && InIdOrder(b) && forall r :: r in a <==> r in b
    ensures a == b
    decreases |a|
  {
    if a == [] {
      FirstIsIn(b);
    } else {
      assert a[0] in a && a[0] in b;
      assert b[0] in b && b[0] in a;
      assert a[0].id <= b[0].id by {
        var i :| 0 <= i < |a| && a[i] == b[0];
      }
      assert b[0].id <= a[0].id by {
        var i :| 0 <= i < |b| && b[i] == a[0];
      }
      var i :| 0 <= i < |b| && b[i] == a[0];
      assert i == 0;
      forall r ensures r in a[1..] <==> r in b[1..] {
        assert forall k :: 0 <= k < |a[1..]| ==> a[1..][k].id > a[0].id;
        assert forall k :: 0 <= k < |b[1..]| ==> b[1..][k].id > b[0].id;
        assert r in a <==> r == a[0] || r in a[1..];
        assert r in b <==> r == b[0] || r in b[1..];
      }
      SameListing(a[1..], b[1..]);
    }
  }

  lemma FirstIsIn(rows: seq<Row>)
    ensures rows == [] || exists r :: r in rows
  {
    if rows != [] {
      assert rows[0] in rows;
    }
  }

  ghost predicate InIdOrder(rows: seq<Row>) {
    forall i, j :: 0 <= i < j < |rows| ==> rows[i].id < rows[j].id
  }

  /** And deleting a row is the deletion they count. */
  lemma DeletionIsCounted(w: World, t: Table, id: int, at: nat)
    requires ValidTable(t) && id in t && at < |DeviceTable.ById(t)| && DeviceTable.ById(t)[at] == t[id]
    ensures Changed(WithTable(w, t), Delete(at)) == WithTable(w, t - {id}).(desired := w.desired + 1)
  {
    hide DeviceTable.ById, Without;
    ListingWithout(t, id, at);
  }

  lemma ListingWithout(t: Table, id: int, at: nat)
    requires ValidTable(t) && id in t && at < |DeviceTable.ById(t)| && DeviceTable.ById(t)[at] == t[id]
    ensures Without(DeviceTable.ById(t), at) == DeviceTable.ById(t - {id})
  {
    hide DeviceTable.ById, Without, InIdOrder;
    var rows := DeviceTable.ById(t);
    forall r: Row ensures r in Without(rows, at) <==> r in DeviceTable.ById(t - {id}) {
      ListingFacts(t, r);
      ListingFacts(t - {id}, r);
      WithoutMembers(rows, at, r);
    }
    ListingFacts(t, t[id]);
    ListingFacts(t - {id}, t[id]);
    WithoutOrder(rows, at);
    SameListing(Without(rows, at), DeviceTable.ById(t - {id}));
  }

  lemma ListingFacts(t: Table, r: Row)
    requires ValidTable(t)
    ensures InIdOrder(DeviceTable.ById(t))
    ensures r in DeviceTable.ById(t) <==> r.id in t && t[r.id] == r
  {
    hide DeviceTable.ById;
    ByIdExact(t);
  }

  lemma WithoutMembers(rows: seq<Row>, at: nat, r: Row)
    requires InIdOrder(rows) && at < |rows|
    ensures r in Without(rows, at) <==> r in rows && r.id != rows[at].id
  {
    var left := Without(rows, at);
    if r in rows && r.id != rows[at].id {
      var i :| 0 <= i < |rows| && rows[i] == r;
      assert i < at ==> left[i] == r;
      assert i > at ==> left[i - 1] == r;
    }
    if r in left {
      var i :| 0 <= i < |left| && left[i] == r;
      assert left[i] == rows[if i < at then i else i + 1];
    }
  }

  lemma WithoutOrder(rows: seq<Row>, at: nat)
    requires InIdOrder(rows) && at < |rows|
    ensures InIdOrder(Without(rows, at))
  {
  }

  /** What the revision log would call a row write: nothing for a new row, a move for a row found again by
      hash and subsystem, a takeover otherwise. */
  function RowChange(t: Table, x: Row, at: nat): Option<Change> {
    if x.id !in t then None
    else if x.hash == t[x.id].hash && x.subsystem == t[x.id].subsystem then Some(Move(at, x.devpath))
    else Some(TakeOver(at, x.hash, x.subsystem))
  }

  /** The world after that change; boot id and parent are still the old ones. */
  ghost function Halfway(w: World, t: Table, x: Row, at: nat): World
    requires ValidTable(t) && (x.id in t ==> at < |DeviceTable.ById(t)|)
  {
    match RowChange(t, x, at)
    case None => WithTable(w, t)
    case Some(c) => Changed(WithTable(w, t), c)
  }

  /** Only the inventory differs. */
  lemma HalfwayRest(w: World, t: Table, x: Row, at: nat)
    requires ValidTable(t) && (x.id in t ==> at < |DeviceTable.ById(t)|)
    ensures var mid := Halfway(w, t, x, at);
            mid.input.inventory.Some? && mid == w.(input := w.input.(inventory := mid.input.inventory))
    ensures x.id !in t ==> Halfway(w, t, x, at) == WithTable(w, t)
  {
    hide DeviceTable.ById;
  }

  lemma {:induction false} SameRowsSameMultiset(a: seq<Row>, b: seq<Row>)
    requires DistinctIds(a) && DistinctIds(b) && forall r :: r in a <==> r in b
    ensures multiset(a) == multiset(b)
  {
    forall r: Row ensures multiset(a)[r] == multiset(b)[r] {
      if r in a {
        var i :| 0 <= i < |a| && a[i] == r;
        var j :| 0 <= j < |b| && b[j] == r;
        MultiplicityOne(a, i);
        MultiplicityOne(b, j);
      } else {
        assert r !in multiset(a) && r !in multiset(b);
      }
    }
  }

  lemma {:induction false} SameRowsSameView(a: seq<Row>, b: seq<Row>)
    requires DistinctIds(a) && DistinctIds(b) && forall r :: r in a <==> r in b
    ensures multiset(View(PolicyLens, a)) == multiset(View(PolicyLens, b))
  {
    hide View, DistinctIds, Sort;
    SameRowsSameMultiset(a, b);
    OrdersBlind();
    SortOrderIndependent(a, b, IdLess);
    ViewSortMultiset(PolicyLens, a, IdLess);
    ViewSortMultiset(PolicyLens, b, IdLess);
  }

  lemma ListedRow(t: Table, r: Row)
    requires ValidTable(t)
    ensures r in DeviceTable.ById(t) <==> r.id in t && t[r.id] == r
  {
    hide DeviceTable.ById;
    ByIdExact(t);
  }

  lemma SnocDistinct(b: seq<Row>, x: Row)
    requires DistinctIds(b) && forall i :: 0 <= i < |b| ==> b[i].id != x.id
    ensures DistinctIds(b + [x])
  {
  }

  lemma NewRowListed(t: Table, x: Row)
    requires ValidTable(t) && x.id > 0 && x.id !in t
    ensures var a, b := DeviceTable.ById(t[x.id := x]), DeviceTable.ById(t) + [x];
            DistinctIds(a) && DistinctIds(b) && forall r :: r in a <==> r in b
  {
    hide DeviceTable.ById, DistinctIds;
    var after := t[x.id := x];
    var a, b := DeviceTable.ById(after), DeviceTable.ById(t);
    TableDistinct(t);
    TableDistinct(after);
    forall i | 0 <= i < |b| ensures b[i].id != x.id {
      ListedRow(t, b[i]);
    }
    SnocDistinct(b, x);
    forall r: Row ensures r in a <==> r in b + [x] {
      ListedRow(t, r);
      ListedRow(after, r);
    }
  }

  lemma {:induction false} NewRowView(t: Table, x: Row)
    requires ValidTable(t) && x.id > 0 && x.id !in t && !CarriesPolicy(x)
    ensures multiset(View(PolicyLens, DeviceTable.ById(t[x.id := x]))) ==
            multiset(View(PolicyLens, DeviceTable.ById(t)))
  {
    assert ViewOf(PolicyLens, x) == [];
    hide View, ViewOf, DeviceTable.ById, DistinctIds;
    var b := DeviceTable.ById(t);
    NewRowListed(t, x);
    SameRowsSameView(DeviceTable.ById(t[x.id := x]), b + [x]);
    ViewConcat(PolicyLens, b, [x]);
    ViewSingle(PolicyLens, x);
    assert View(PolicyLens, b) + [] == View(PolicyLens, b);
  }

  /** Rows that differ in boot id and parent only look the same. */
  lemma {:induction false} SameBareSameView(a: seq<Row>, b: seq<Row>)
    requires |a| == |b| && forall i :: 0 <= i < |a| ==> Bare(a[i]) == Bare(b[i])
    ensures View(PolicyLens, a) == View(PolicyLens, b)
  {
    if a != [] {
      var n := |a| - 1;
      SameBareSameView(a[..n], b[..n]);
      SameBareCarries(a[n], b[n]);
    }
  }

  lemma SameBareCarries(a: Row, b: Row)
    requires Bare(a) == Bare(b)
    ensures CarriesPolicy(a) == CarriesPolicy(b)
  {
    assert CarriesPolicy(Bare(a)) == CarriesPolicy(a) && CarriesPolicy(Bare(b)) == CarriesPolicy(b);
  }

  /** Between two inventories with the same view `Observe` is possible. */
  lemma {:induction false} Observable(w: World, rows: seq<Row>)
    requires ValidWorld(w) && DistinctIds(rows)
    requires multiset(View(PolicyLens, w.input.inventory.value)) == multiset(View(PolicyLens, rows))
    ensures Possible(w, Observe(rows, w.input.attributes))
  {
  }

  /**
   * Every row write of an attach is one of the changes of a run: an observation of a new row, or a
   * move or a takeover followed by an observation of boot id and parent.
   */
  lemma WriteIsChange(w: World, t: Table, boot: string, x: Row, at: nat)
    requires ValidTable(t) && ValidWorld(WithTable(w, t)) && Tree.GoodWrite(t, boot, x)
    requires x.id in t ==> at < |DeviceTable.ById(t)| && DeviceTable.ById(t)[at] == t[x.id]
    ensures RowChange(t, x, at).Some? && RowChange(t, x, at).value.TakeOver? ==> t[x.id].subsystem == VIRTUAL
    ensures ValidTable(t[x.id := x]) && ValidWorld(Halfway(w, t, x, at))
    ensures var rows := DeviceTable.ById(t[x.id := x]);
            var mid := Halfway(w, t, x, at);
            && Possible(mid, Observe(rows, w.input.attributes))
            && Changed(mid, Observe(rows, w.input.attributes)) == WithTable(w, t[x.id := x])
  {
    assert ValidTable(t[x.id := x]);
    assert x.id !in t ==> !CarriesPolicy(x);
    hide DeviceTable.ById, View, Possible, DistinctIds, Halfway, ValidTable, CarriesPolicy;
    TableDistinct(t);
    TableDistinct(t[x.id := x]);
    HalfwayRest(w, t, x, at);
    var after := DeviceTable.ById(t[x.id := x]);
    if x.id in t {
      KnownWriteView(w, t, x, at);
    } else {
      NewRowView(t, x);
    }
    Observable(Halfway(w, t, x, at), after);
  }

  lemma KnownWriteView(w: World, t: Table, x: Row, at: nat)
    requires ValidTable(t) && x.id in t && Tree.TakesOver(x, t[x.id])
    requires at < |DeviceTable.ById(t)| && DeviceTable.ById(t)[at] == t[x.id]
    ensures var rows := Halfway(w, t, x, at).input.inventory.value;
            DistinctIds(rows) && View(PolicyLens, rows) == View(PolicyLens, DeviceTable.ById(t[x.id := x]))
  {
    hide DeviceTable.ById, View, Halfway, Bare, DistinctIds;
    TableDistinct(t);
    KnownRowReplaced(t, x, at);
    HalfwayRow(w, t, x, at);
    var rows, mid := DeviceTable.ById(t), Halfway(w, t, x, at).input.inventory.value;
    ReplacedDistinct(rows, at, mid[at]);
    SameBareSameView(mid, rows[at := x]);
  }

  /** Halfway only the written row differs, and not in what the policy sees of it. */
  lemma HalfwayRow(w: World, t: Table, x: Row, at: nat)
    requires ValidTable(t) && x.id in t && Tree.TakesOver(x, t[x.id])
    requires at < |DeviceTable.ById(t)| && DeviceTable.ById(t)[at] == t[x.id]
    ensures var rows, world := DeviceTable.ById(t), Halfway(w, t, x, at);
            && world.input.inventory.Some?
            && var mid := world.input.inventory.value;
               |mid| == |rows| && mid == rows[at := mid[at]] && mid[at].id == rows[at].id && Bare(mid[at]) == Bare(x)
  {
    hide DeviceTable.ById;
  }

  // ----- exactly when a row write keeps the promise

  /** Read off the table before the write: a row found again keeps its path or shows in no path rule; the
      rules of a virtual row that is taken over keep their place among the rules of their kind. */
  ghost predicate KeepsRules(t: Table, x: Row) {
    x.id in t ==>
      var r := t[x.id];
      if x.hash == r.hash && x.subsystem == r.subsystem then x.devpath == r.devpath || Unruled(r, x.devpath)
      else KeepsPlaces(t, r, x.hash, x.subsystem)
  }

  ghost predicate KeepsPlaces(t: Table, r: Row, hash: string, subsystem: string) {
    forall kind, id :: id in t && id != r.id && Carries(kind, r) && Carries(kind, t[id]) ==>
      (PathLess(t[id], r) <==> PathLess(t[id], Renamed(r, hash, subsystem)))
  }

  lemma PlacesAreOrder(t: Table, at: nat, hash: string, subsystem: string)
    requires ValidTable(t) && at < |DeviceTable.ById(t)|
    ensures KeepsPlaces(t, DeviceTable.ById(t)[at], hash, subsystem) <==>
            KeepsRuleOrder(DeviceTable.ById(t), at, hash, subsystem)
  {
    hide DeviceTable.ById, PathLess, Carries, Renamed, DistinctIds;
    var rows := DeviceTable.ById(t);
    var r := rows[at];
    ListedRow(t, r);
    TableDistinct(t);
    if KeepsPlaces(t, r, hash, subsystem) {
      forall kind, i | 0 <= i < |rows| && i != at && Carries(kind, r) && Carries(kind, rows[i])
        ensures PathLess(rows[i], r) <==> PathLess(rows[i], Renamed(r, hash, subsystem))
      {
        DistinctAt(rows, i, at);
        ListedRow(t, rows[i]);
      }
    }
    if KeepsRuleOrder(rows, at, hash, subsystem) {
      forall kind, id | id in t && id != r.id && Carries(kind, r) && Carries(kind, t[id])
        ensures PathLess(t[id], r) <==> PathLess(t[id], Renamed(r, hash, subsystem))
      {
        assert KeepsPlace(kind, rows, at, hash, subsystem);
        ListedRow(t, t[id]);
        var i :| 0 <= i < |rows| && rows[i] == t[id];
      }
    }
  }

  lemma ObservedAlike(a: World, rows: seq<Row>)
    requires ValidWorld(a) && Possible(a, Observe(rows, a.input.attributes))
    ensures Consistent(Changed(a, Observe(rows, a.input.attributes))) <==> Consistent(a)
  {
    hide CompileSpec, SamePolicy, DistinctIds;
    SamePolicyCompilesAlike(a.input, Changed(a, Observe(rows, a.input.attributes)).input);
  }

  /**
   * Exactly when a row write of an attach leaves matching revisions over current rules: for every
   * policy with current rules, every table and every write an attach can make.
   */
  lemma WriteStaleExactly(w: World, t: Table, boot: string, x: Row)
    requires ValidTable(t) && ValidWorld(WithTable(w, t)) && Tree.GoodWrite(t, boot, x)
    requires Consistent(WithTable(w, t)) && w.active == w.desired
    ensures Consistent(WithTable(w, t[x.id := x])) <==> KeepsRules(t, x)
  {
    hide CompileSpec, Possible, Consistent, KeepsRules, DeviceTable.ById, Tree.GoodWrite, Halfway, RowChange,
         DistinctIds, ValidTable;
    var at := 0;
    if x.id in t {
      at := PlaceOf(t, x.id);
    }
    WriteIsChange(w, t, boot, x, at);
    HalfwayRest(w, t, x, at);
    ObservedAlike(Halfway(w, t, x, at), DeviceTable.ById(t[x.id := x]));
    HalfwayStaleExactly(w, t, x, at);
  }

  lemma HalfwayStaleExactly(w: World, t: Table, x: Row, at: nat)
    requires ValidTable(t) && ValidWorld(WithTable(w, t)) && Consistent(WithTable(w, t)) && w.active == w.desired
    requires x.id in t ==> at < |DeviceTable.ById(t)| && DeviceTable.ById(t)[at] == t[x.id]
    requires RowChange(t, x, at).Some? && RowChange(t, x, at).value.TakeOver? ==> t[x.id].subsystem == VIRTUAL
    ensures Consistent(Halfway(w, t, x, at)) <==> KeepsRules(t, x)
  {
    hide CompileSpec, Consistent, KeepsPlaces, Unruled, KeepsRuleOrder, DeviceTable.ById, DistinctIds, ValidTable;
    var now := WithTable(w, t);
    if x.id in t {
      if RowChange(t, x, at).value.Move? {
        MoveStaleExactly(now, at, x.devpath);
      } else {
        TakeOverStaleExactly(now, at, x.hash, x.subsystem);
        PlacesAreOrder(t, at, x.hash, x.subsystem);
      }
    }
  }

  // ----- attributes

  lemma {:induction false} ReportedAttributes(all: map<int, Attributes>, id: int, list: seq<(string, string)>)
    ensures var after := Tree.WithAttributes(all, id, list);
            after == all || (id in after && after == all[id := after[id]])
  {
    if list != [] {
      ReportedAttributes(all, id, list[..|list| - 1]);
    }
  }

  /** Storing the reported attributes of a row is nothing at all, or a description of it. */
  lemma ReportIsChange(w: World, t: Table, id: int, list: seq<(string, string)>) returns (place: nat)
    requires ValidTable(t) && ValidWorld(WithTable(w, t)) && id in t
    ensures place < |IdOrder(WithTable(w, t).input)| && IdOrder(WithTable(w, t).input)[place] == t[id]
    ensures var now := WithTable(w, t);
            var after := Tree.WithAttributes(w.input.attributes, id, list);
            after == w.input.attributes ||
            (id in after && now.(input := now.input.(attributes := after)) == Changed(now, Describe(place, after[id])))
  {
    hide DeviceTable.ById, Sort, Tree.WithAttributes;
    ReportedAttributes(w.input.attributes, id, list);
    var at := PlaceOf(t, id);
    var rows := DeviceTable.ById(t);
    assert rows[at] in multiset(rows) && rows[at] in multiset(Sort(rows, PathLess));
    assert rows[at] in multiset(Sort(Sort(rows, PathLess), IdLess));
    place :| place < |IdOrder(WithTable(w, t).input)| && IdOrder(WithTable(w, t).input)[place] == t[id];
  }

  // ----- disconnects, and runs of both

  /** A disconnect changes boot ids only, which no rule shows. */
  lemma ClearingIsObserved(w: World, t: Table, ids: set<int>)
    requires ValidTable(t) && ValidWorld(WithTable(w, t))
    ensures ValidTable(Subtrees.Cleared(t, ids))
    ensures var rows := DeviceTable.ById(Subtrees.Cleared(t, ids));
            && Possible(WithTable(w, t), Observe(rows, w.input.attributes))
            && Changed(WithTable(w, t), Observe(rows, w.input.attributes)) == WithTable(w, Subtrees.Cleared(t, ids))
  {
    var after := Subtrees.Cleared(t, ids);
    assert after.Keys == t.Keys;
    var a, b := DeviceTable.ById(t), DeviceTable.ById(after);
    forall i | 0 <= i < |a| ensures Bare(a[i]) == Bare(b[i]) {
      assert a[i] == t[SortedIds(t.Keys)[i]] && b[i] == after[SortedIds(t.Keys)[i]];
    }
    TableDistinct(after);
    hide View, Subtrees.Cleared, DeviceTable.ById, Possible, DistinctIds;
    SameBareSameView(a, b);
    Observable(WithTable(w, t), b);
  }

  /** Each write of an attach keeps the rules on the table it finds. */
  ghost predicate AllKeepRules(t: Table, writes: seq<Row>)
    decreases |writes|
  {
    writes == [] || (KeepsRules(t, writes[0]) && AllKeepRules(t[writes[0].id := writes[0]], writes[1..]))
  }

  lemma {:induction false} AttachKeepsRules(w: World, t: Table, boot: string, writes: seq<Row>)
    requires ValidTable(t) && ValidWorld(WithTable(w, t)) && Tree.GoodWrites(t, boot, writes) && AllKeepRules(t, writes)
    requires Consistent(WithTable(w, t)) && w.active == w.desired
    ensures Consistent(WithTable(w, Tree.Applied(t, writes)))
    decreases |writes|
  {
    hide Consistent, KeepsRules, DeviceTable.ById, Tree.GoodWrite;
    if writes != [] {
      var x := writes[0];
      WriteStaleExactly(w, t, boot, x);
      WriteKeepsTable(t, boot, x);
      TableDistinct(t[x.id := x]);
      AttachKeepsRules(w, t[x.id := x], boot, writes[1..]);
    }
  }

  lemma WriteKeepsTable(t: Table, boot: string, x: Row)
    requires ValidTable(t) && Tree.GoodWrite(t, boot, x)
    ensures ValidTable(t[x.id := x])
  {
  }

  ghost predicate StepKeepsRules(t: Table, s: Tree.Step) {
    s.Attach? ==> AllKeepRules(t, s.writes)
  }

  /** In every run of attaches and disconnects whose writes keep the rules, matching revisions mean current rules. */
  lemma {:induction false} EveryTreeRunKeepsRules(w: World, tables: seq<Table>, steps: seq<Tree.Step>, boot: string,
                                                  n: nat)
    requires boot != "" && Tree.IsRun(tables, steps, boot) && n <= |steps|
    requires ValidTable(tables[0]) && Subtrees.Anchored(tables[0], boot)
    requires ValidWorld(WithTable(w, tables[0])) && Consistent(WithTable(w, tables[0])) && w.active == w.desired
    requires forall i :: 0 <= i < |steps| ==> StepKeepsRules(tables[i], steps[i])
    ensures ValidTable(tables[n]) && Consistent(WithTable(w, tables[n]))
  {
    hide Consistent, DeviceTable.ById, Tree.GoodWrites, AllKeepRules, Subtrees.Disconnected, Subtrees.Anchored;
    Tree.EveryRunKeepsAnchors(tables, steps, boot, n);
    if n > 0 {
      EveryTreeRunKeepsRules(w, tables, steps, boot, n - 1);
      var t, s := tables[n - 1], steps[n - 1];
      TableDistinct(t);
      assert StepKeepsRules(t, s);
      match s {
        case Attach(writes) => AttachKeepsRules(w, t, boot, writes);
        case Disconnect(target) => DisconnectKeepsRules(w, t, boot, target);
      }
    }
  }

  lemma TargetIsKnown(t: Table, boot: string, target: int)
    requires target in Subtrees.Current(t, boot)
    ensures target in t
  {
  }

  lemma DisconnectKeepsRules(w: World, t: Table, boot: string, target: int)
    requires ValidTable(t) && ValidWorld(WithTable(w, t)) && boot != "" && target in Subtrees.Current(t, boot)
    ensures Consistent(WithTable(w, Subtrees.Disconnected(t, boot, target))) <==> Consistent(WithTable(w, t))
  {
    hide Consistent, Possible, DeviceTable.ById, Subtrees.Disconnected, Subtrees.Subtree, Subtrees.PruneChain,
         Subtrees.MaximalChain, Subtrees.Cleared, Subtrees.Current;
    Subtrees.DisconnectExact(t, boot, target);
    assert target in t by { TargetIsKnown(t, boot, target); }
    var s := Subtrees.Subtree(t, boot, target);
    var ids := s + Subtrees.Ids(Subtrees.PruneChain(Subtrees.Cleared(t, s), boot, t[target].parentId));
    ClearingIsObserved(w, t, ids);
    ObservedAlike(WithTable(w, t), DeviceTable.ById(Subtrees.Cleared(t, ids)));
  }
}
