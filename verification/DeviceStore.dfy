/** The open device database: its tables, and the one transaction a connection can have. */
module DeviceStore {
  import opened Common
  import opened DeviceTable

  datatype DeviceEvent = DeviceEvent(deviceId: int, eventType: string, result: string, details: string)

  datatype Content = Content(rows: Table, attributes: map<int, Attributes>, events: seq<DeviceEvent>)

  /** CHECK(event_type IN (...)) of `device_events`. */
  predicate KnownEventType(t: string) {
    t in ["connect", "disconnect", "block", "allow", "lock", "unlock"]
  }

  /** CHECK(event_result IN (...)) of `device_events`. */
  predicate KnownEventResult(r: string) {
    r in ["success", "blocked_by_parent", "blocked_by_policy", "error", "temporary_allowed"]
  }

  /** The statements of the store, with the row they are about where it matters who failed. */
  datatype Statement = Begin | Commit | SetBootId(id: int) | AddEvent | Insert | Update(id: int) | SetAttribute(id: int)

  /**
   * Every statement may fail, as SQLite may; a statement that fails changes nothing, and ROLLBACK
   * brings back what BEGIN saw. `failed` lists the statements that failed so far.
   */
  class DeviceDb {
    var content: Content
    var saved: Option<Content>
    ghost var failed: seq<Statement>

    ghost predicate Valid()
      reads this
    {
      ValidTable(content.rows) && (saved.Some? ==> ValidTable(saved.value.rows))
    }

    constructor (initial: Content)
      requires ValidTable(initial.rows)
      ensures Valid() && content == initial && saved == None && failed == []
    {
      content := initial;
      saved := None;
      failed := [];
    }

    /** Whether SQLite carries the statement out. */
    method Run(ghost s: Statement) returns (ok: bool)
      modifies this`failed
      ensures failed == old(failed) + if ok then [] else [s]
    {
      ok := *;
      if !ok {
        failed := failed + [s];
      }
      assert failed == old(failed) + if ok then [] else [s];
    }

    method BeginTransaction() returns (ok: bool)
      requires Valid() && saved == None
      modifies this
      ensures Valid() && content == old(content) && saved == if ok then Some(old(content)) else None
      ensures failed == old(failed) + if ok then [] else [Begin]
    {
      ok := Run(Begin);
      if ok {
        saved := Some(content);
      }
    }

    method CommitTransaction() returns (ok: bool)
      requires Valid() && saved.Some?
      modifies this
      ensures Valid() && content == old(content) && saved == if ok then None else old(saved)
      ensures failed == old(failed) + if ok then [] else [Commit]
    {
      ok := Run(Commit);
      if ok {
        saved := None;
      }
    }

    method RollbackTransaction()
      requires Valid() && saved.Some?
      modifies this`content, this`saved
      ensures Valid() && content == old(saved).value && saved == None
    {
      content := saved.value;
      saved := None;
    }

    /** Without a row to change the statement succeeds, and the call does not. */
    method UpdateBootId(id: int, boot: string) returns (ok: bool)
      requires Valid()
      modifies this
      ensures Valid() && saved == old(saved)
      ensures !ok ==> content == old(content)
      ensures ok ==> id in old(content).rows &&
                     content == old(content).(rows := old(content).rows[id := old(content).rows[id].(bootId := boot)])
      ensures failed == old(failed) + if ok || id !in old(content).rows then [] else [SetBootId(id)]
    {
      if id <= 0 || id !in content.rows {
        return false;
      }
      ok := Run(SetBootId(id));
      if ok {
        content := content.(rows := content.rows[id := content.rows[id].(bootId := boot)]);
      }
    }

    method AddDeviceEvent(event: DeviceEvent) returns (ok: bool)
      requires Valid()
      modifies this
      ensures Valid() && saved == old(saved)
      ensures content == if ok then old(content).(events := old(content).events + [event]) else old(content)
      ensures ok <==> event.deviceId in old(content).rows && KnownEventType(event.eventType) &&
                      KnownEventResult(event.result) && failed == old(failed)
      ensures failed == old(failed) + if ok || !Admitted(old(content), event) then [] else [AddEvent]
    {
      if !Admitted(content, event) {
        return false;
      }
      ok := Run(AddEvent);
      if ok {
        content := content.(events := content.events + [event]);
      }
    }

    /** INSERT INTO devices; -1 when the statement fails. */
    method AddDevice(row: Row) returns (id: int)
      requires Valid()
      modifies this
      ensures Valid() && saved == old(saved)
      ensures id == -1 ==> content == old(content)
      ensures id != -1 ==> id > 0 && id !in old(content).rows
      ensures id != -1 ==> content == old(content).(rows := old(content).rows[id := row.(id := id)])
      ensures failed == old(failed) + if id != -1 then [] else [Insert]
    {
      var ok := Run(Insert);
      if !ok {
        return -1;
      }
      SomeIdIsFree(content.rows);
      id :| id > 0 && id !in content.rows;
      content := content.(rows := content.rows[id := row.(id := id)]);
    }

    /** UPDATE devices ... WHERE id = ?, which succeeds without effect for an unknown id. */
    method UpdateDevice(row: Row, id: int) returns (ok: bool)
      requires Valid()
      modifies this
      ensures Valid() && saved == old(saved)
      ensures !ok || id !in old(content).rows ==> content == old(content)
      ensures ok && id in old(content).rows ==>
                content == old(content).(rows := old(content).rows[id := row.(id := id)])
      ensures failed == old(failed) + if ok then [] else [Update(id)]
    {
      ok := Run(Update(id));
      if ok && id in content.rows {
        content := content.(rows := content.rows[id := row.(id := id)]);
      }
    }

    /** INSERT OR REPLACE INTO device_attributes */
    method AddDeviceAttribute(id: int, name: string, value: string) returns (ok: bool)
      requires Valid()
      modifies this
      ensures Valid() && saved == old(saved)
      ensures content == if ok then
              old(content).(attributes := WithAttribute(old(content).attributes, id, name, value)) else old(content)
      ensures failed == old(failed) + if ok then [] else [SetAttribute(id)]
    {
      ok := Run(SetAttribute(id));
      if ok {
        content := content.(attributes := WithAttribute(content.attributes, id, name, value));
      }
    }
  }

  /** The foreign key and the two CHECKs of `device_events`. */
  predicate Admitted(content: Content, event: DeviceEvent) {
    event.deviceId in content.rows && KnownEventType(event.eventType) && KnownEventResult(event.result)
  }

  function WithAttribute(all: map<int, Attributes>, id: int, name: string, value: string): map<int, Attributes> {
    all[id := (if id in all then all[id] else map[])[name := value]]
  }

  lemma SomeIdIsFree(t: Table)
    ensures exists id :: id > 0 && id !in t
  {
    var bound := BoundOf(t.Keys);
    assert bound > 0 && bound !in t;
  }

  lemma {:induction false} BoundOf(s: set<int>) returns (bound: int)
    ensures bound > 0 && forall id :: id in s ==> id < bound
    decreases |s|
  {
    IdSetInhabited(s);
    if s == {} {
      bound := 1;
    } else {
      var x :| x in s;
      bound := BoundOf(s - {x});
      var before := bound;
      if bound <= x {
        bound := x + 1;
      }
      forall id | id in s ensures id < bound {
        assert id == x || id in s - {x};
      }
    }
  }
}
