/** The `devices` table: its rows, and the listings "ORDER BY id" the daemon reads. */
module DeviceTable {
  import opened Common

  /** CHECK(control_level IN ('blocked','allowed','permanent','ignored')) */
  datatype ControlLevel = Blocked | Allowed | Permanent | Ignored

  /** CHECK(children_control IN ('allow','deny','inherit')) */
  datatype ChildrenControl = AllowChildren | DenyChildren | Inherit

  datatype Row = Row(
    id: int,
    hash: string,
    devpath: string,
    subsystem: string,
    parentId: int,
    level: ControlLevel,
    explicit: bool,
    ignoreHierarchy: bool,
    bootId: string,
    children: ChildrenControl)

  /** Rows by primary key. */
  type Table = map<int, Row>

  const STATIC_BOOT := "-1"
  const VIRTUAL := "__virtual__"

  /** The subsystems whose devices are put into the tree. */
  predicate ManagedSubsystem(s: string) {
    s == "usb" || s == "usbmisc" || s == "pci" || s == "block"
  }

  ghost predicate ValidTable(t: Table) {
    forall id :: id in t ==> id > 0 && t[id].id == id
  }

  function Lookup(t: Table, id: int): Option<Row> {
    if id in t then Some(t[id]) else None
  }

  predicate SameIdentity(a: Row, b: Row) {
    a.hash == b.hash && a.subsystem == b.subsystem
  }

  lemma TablesEqual(a: Table, b: Table)
    requires forall id :: id in a <==> id in b
    requires forall id :: id in a ==> a[id] == b[id]
    ensures a == b
  {
    assert forall id :: id in a <==> id in b;
    assert forall id :: id in a ==> a[id] == b[id];
    assert a == b;
  }

  // ----- ORDER BY id

  ghost predicate Ascending(ids: seq<int>) {
    forall i, j :: 0 <= i < j < |ids| ==> ids[i] < ids[j]
  }

  lemma IdSetInhabited(s: set<int>)
    ensures s == {} || exists e :: e in s
  {
    if forall e :: e !in s {
      assert s == {};
    }
  }

  predicate IsMinimum(m: int, s: set<int>) {
    m in s && forall x :: x in s ==> m <= x
  }

  lemma {:induction false} MinimumExists(s: set<int>) returns (m: int)
    requires s != {}
    ensures IsMinimum(m, s)
  {
    IdSetInhabited(s);
    m :| m in s;
    var rest := s - {m};
    if rest != {} {
      var other := MinimumExists(rest);
      var first := m;
      if other < first {
        m := other;
      }
      forall x | x in s ensures m <= x {
        assert x == first || x in rest;
      }
    } else {
      forall x | x in s ensures m <= x {
        assert x == m || x in rest;
      }
    }
  }

  lemma HasMinimum(s: set<int>)
    requires s != {}
    ensures exists m :: IsMinimum(m, s)
  {
    var m := MinimumExists(s);
  }

  function SortedIds(s: set<int>): (ids: seq<int>)
    ensures Ascending(ids)
    ensures forall x :: x in ids <==> x in s
  {
    if s == {} then []
    else
      HasMinimum(s);
      var m :| m in s && IsMinimum(m, s);
      assert forall x :: x in s <==> x == m || x in s - {m};
      [m] + SortedIds(s - {m})
  }

  /** SELECT ... FROM devices ORDER BY id */
  function ById(t: Table): (rows: seq<Row>)
    ensures |rows| == |SortedIds(t.Keys)|
    ensures forall i :: 0 <= i < |rows| ==> SortedIds(t.Keys)[i] in t && rows[i] == t[SortedIds(t.Keys)[i]]
  {
    var ids := SortedIds(t.Keys);
    assert forall i :: 0 <= i < |ids| ==> ids[i] in ids;
    seq(|ids|, i requires 0 <= i < |ids| => t[ids[i]])
  }

  lemma ByIdExact(t: Table)
    requires ValidTable(t)
    ensures forall r: Row :: r in ById(t) <==> r.id in t && t[r.id] == r
    ensures forall i, j :: 0 <= i < j < |ById(t)| ==> ById(t)[i].id < ById(t)[j].id
  {
    var ids, rows := SortedIds(t.Keys), ById(t);
    forall r: Row | r.id in t && t[r.id] == r ensures r in rows {
      assert r.id in ids;
      var i :| 0 <= i < |ids| && ids[i] == r.id;
      assert rows[i] == r;
    }
    forall r: Row | r in rows ensures r.id in t && t[r.id] == r {
      var i :| 0 <= i < |rows| && rows[i] == r;
      assert ids[i] in t;
    }
  }
}
