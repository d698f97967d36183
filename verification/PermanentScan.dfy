/** The scan for permanent devices that are missing from the current boot. */
module PermanentScan {
  import opened Common
  import opened DeviceTable
  import opened CategoryPolicy
  import opened EffectivePolicy
  import opened PolicyOverride

  /** Some row of the same identity is connected in the current boot, or the row is a static container. */
  predicate IdentityConnected(rows: seq<Row>, device: Row, bootId: string) {
    device.id > 0 && bootId != "" &&
    (device.bootId == STATIC_BOOT || exists r :: r in rows && SameIdentity(r, device) && Connected(r, bootId))
  }

  ghost predicate SomeConnected(rows: seq<Row>, bootId: string) {
    exists r :: r in rows && Connected(r, bootId)
  }

  method AnyConnected(found: seq<Row>, bootId: string) returns (connected: bool)
    ensures connected == SomeConnected(found, bootId)
  {
    hide Connected;
    for i := 0 to |found|
      invariant forall k :: 0 <= k < i ==> !Connected(found[k], bootId)
    {
      if Connected(found[i], bootId) {
        assert found[i] in found;
        return true;
      }
    }
    return false;
  }

  lemma {:induction false} OccurrenceConnected(rows: seq<Row>, device: Row, bootId: string)
    ensures SomeConnected(Occurrences(rows, device.hash, device.subsystem), bootId)
            <==> exists r :: r in rows && SameIdentity(r, device) && Connected(r, bootId)
  {
    hide Connected, Occurrences;
    OccurrencesExact(rows, device.hash, device.subsystem);
    if SomeConnected(Occurrences(rows, device.hash, device.subsystem), bootId) {
      var r :| r in Occurrences(rows, device.hash, device.subsystem) && Connected(r, bootId);
      assert r in rows && SameIdentity(r, device);
    }
    if r :| r in rows && SameIdentity(r, device) && Connected(r, bootId) {
      assert r in Occurrences(rows, device.hash, device.subsystem);
    }
  }

  method CheckIdentityConnected(db: Database, device: Row, bootId: string) returns (connected: bool)
    ensures connected == IdentityConnected(ById(db.rows), device, bootId)
  {
    hide ById, Occurrences, SomeConnected, Connected, SameIdentity;
    if device.id <= 0 || bootId == "" {
      return false;
    }
    if device.bootId == STATIC_BOOT {
      return true;
    }
    connected := AnyConnected(Occurrences(ById(db.rows), device.hash, device.subsystem), bootId);
    OccurrenceConnected(ById(db.rows), device, bootId);
  }

  /** The row a permanent level comes from; the device itself when there is none. */
  function SourceRow(db: Database, device: Row, policy: Policy): Row {
    if policy.sourceId > 0 && policy.sourceId in db.rows then db.rows[policy.sourceId] else device
  }

  /** The text obligations are deduplicated by. */
  function ObligationKey(r: Row): string {
    r.hash + "\n" + r.subsystem
  }

  /** The device is held to be permanently present and is not. */
  ghost predicate Missing(db: Database, device: Row, bootId: string)
    requires db.Valid()
  {
    var policy := Effective(db, device, None, None);
    policy.level == Permanent && !IdentityConnected(ById(db.rows), SourceRow(db, device, policy), bootId)
  }

  ghost function KeyOf(db: Database, device: Row): string
    requires db.Valid()
  {
    ObligationKey(SourceRow(db, device, Effective(db, device, None, None)))
  }

  datatype Violation = Violation(deviceId: int, sourceId: int, devpath: string, source: Source)

  datatype Scan = Scan(ok: bool, violations: seq<Violation>)

  /** A violation reports the device it was found on. */
  ghost predicate Reports(db: Database, v: Violation, device: Row)
    requires db.Valid()
  {
    var policy := Effective(db, device, None, None);
    v == Violation(device.id, SourceRow(db, device, policy).id, device.devpath, policy.source)
  }

  /** Sound, complete and duplicate-free over a list of candidates. `found` lists the devices
      the violations were reported on. */
  ghost predicate Exact(db: Database, candidates: seq<Row>, bootId: string, violations: seq<Violation>, found: seq<Row>)
    requires db.Valid()
  {
    && |found| == |violations|
    && (forall i :: 0 <= i < |found| ==>
         found[i] in candidates && Missing(db, found[i], bootId) && Reports(db, violations[i], found[i]))
    && KeysDiffer(db, found) && NoneLeft(db, candidates, bootId, found)
  }

  ghost predicate KeysDiffer(db: Database, found: seq<Row>)
    requires db.Valid()
  {
    forall i, j :: 0 <= i < j < |found| ==> KeyOf(db, found[i]) != KeyOf(db, found[j])
  }

  ghost predicate NoneLeft(db: Database, candidates: seq<Row>, bootId: string, found: seq<Row>)
    requires db.Valid()
  {
    forall d :: d in candidates && Missing(db, d, bootId) ==>
      exists i :: 0 <= i < |found| && KeyOf(db, found[i]) == KeyOf(db, d)
  }

  /** The rows of the ids that exist, and no others. */
  ghost predicate Listed(db: Database, ids: seq<int>, candidates: seq<Row>) {
    && (forall r :: r in candidates ==> exists id :: id in ids && id in db.rows && db.rows[id] == r)
    && (forall id :: id in ids && id in db.rows ==> db.rows[id] in candidates)
  }

  /** The candidates of a partial check. */
  method Candidates(db: Database, ids: seq<int>) returns (candidates: seq<Row>)
    ensures Listed(db, ids, candidates)
  {
    candidates := [];
    for i := 0 to |ids|
      invariant Listed(db, ids[..i], candidates)
    {
      assert forall id :: id in ids[..i + 1] <==> id in ids[..i] || id == ids[i];
      var device := Lookup(db.rows, ids[i]);
      if device.Some? {
        candidates := candidates + [device.value];
      }
    }
    assert ids[..|ids|] == ids;
  }

  ghost predicate SeenKeys(db: Database, found: seq<Row>, seen: set<string>)
    requires db.Valid()
  {
    forall k :: k in seen <==> exists n :: 0 <= n < |found| && KeyOf(db, found[n]) == k
  }

  method ScanCandidates(db: Database, candidates: seq<Row>, bootId: string)
    returns (violations: seq<Violation>, ghost found: seq<Row>)
    requires db.Valid()
    ensures Exact(db, candidates, bootId, violations, found)
    ensures exists devices :: Exact(db, candidates, bootId, violations, devices)
  {
    hide Effective, IdentityConnected, ById, ObligationKey, Exact, SeenKeys;
    violations, found := [], [];
    var seen: set<string> := {};
    NothingScanned(db, bootId);
    assert candidates[..0] == [];
    for i := 0 to |candidates|
      invariant Exact(db, candidates[..i], bootId, violations, found)
      invariant SeenKeys(db, found, seen)
    {
      var device := candidates[i];
      assert candidates[..i + 1] == candidates[..i] + [device];
      var policy := EvaluateEffective(db, device, None, None);
      if policy.level != Permanent {
        Skipped(db, candidates[..i], device, bootId, violations, found, seen);
        continue;
      }
      var source := SourceRow(db, device, policy);
      var connected := CheckIdentityConnected(db, source, bootId);
      if connected {
        Skipped(db, candidates[..i], device, bootId, violations, found, seen);
        continue;
      }
      var key := ObligationKey(source);
      if key in seen {
        Skipped(db, candidates[..i], device, bootId, violations, found, seen);
        continue;
      }
      var v := Violation(device.id, source.id, device.devpath, policy.source);
      Extended(db, candidates[..i], device, bootId, violations, found, v, seen);
      seen, violations, found := seen + {key}, violations + [v], found + [device];
    }
    assert candidates[..|candidates|] == candidates;
  }

  lemma NothingScanned(db: Database, bootId: string)
    requires db.Valid()
    ensures Exact(db, [], bootId, [], []) && SeenKeys(db, [], {})
  {
  }

  lemma Skipped(db: Database, candidates: seq<Row>, device: Row, bootId: string, violations: seq<Violation>,
                found: seq<Row>, seen: set<string>)
    requires db.Valid() && Exact(db, candidates, bootId, violations, found) && SeenKeys(db, found, seen)
    requires !Missing(db, device, bootId) || KeyOf(db, device) in seen
    ensures Exact(db, candidates + [device], bootId, violations, found)
  {
    hide Missing, Reports, KeyOf;
  }

  lemma SeenMore(db: Database, found: seq<Row>, device: Row, seen: set<string>)
    requires db.Valid() && SeenKeys(db, found, seen)
    ensures SeenKeys(db, found + [device], seen + {KeyOf(db, device)})
  {
    hide KeyOf;
    var found', seen' := found + [device], seen + {KeyOf(db, device)};
    assert found'[|found|] == device;
    forall k | k in seen' ensures exists n :: 0 <= n < |found'| && KeyOf(db, found'[n]) == k {
      if k in seen {
        var n :| 0 <= n < |found| && KeyOf(db, found[n]) == k;
        assert found'[n] == found[n];
      }
    }
  }

  lemma Extended(db: Database, candidates: seq<Row>, device: Row, bootId: string, violations: seq<Violation>,
                 found: seq<Row>,
                 v: Violation, seen: set<string>)
    requires db.Valid() && Exact(db, candidates, bootId, violations, found) && SeenKeys(db, found, seen)
    requires Missing(db, device, bootId) && Reports(db, v, device) && KeyOf(db, device) !in seen
    ensures Exact(db, candidates + [device], bootId, violations + [v], found + [device])
    ensures SeenKeys(db, found + [device], seen + {KeyOf(db, device)})
  {
    hide Missing, Reports, KeyOf, KeysDiffer, NoneLeft;
    SeenMore(db, found, device, seen);
    KeysStillDiffer(db, found, device, seen);
    NoneStillLeft(db, candidates, bootId, found, device);
    hide SeenKeys;
    forall i | 0 <= i < |found + [device]|
      ensures (found + [device])[i] in candidates + [device] && Missing(db, (found + [device])[i], bootId) &&
              Reports(db, (violations + [v])[i], (found + [device])[i])
    {
      assert i < |found| ==> (found + [device])[i] == found[i] && (violations + [v])[i] == violations[i];
    }
  }

  lemma KeysStillDiffer(db: Database, found: seq<Row>, device: Row, seen: set<string>)
    requires db.Valid() && SeenKeys(db, found, seen) && KeysDiffer(db, found) && KeyOf(db, device) !in seen
    ensures KeysDiffer(db, found + [device])
  {
    hide KeyOf;
    assert forall n :: 0 <= n < |found| ==> KeyOf(db, found[n]) != KeyOf(db, device);
  }

  lemma NoneStillLeft(db: Database, candidates: seq<Row>, bootId: string, found: seq<Row>, device: Row)
    requires db.Valid() && NoneLeft(db, candidates, bootId, found)
    ensures NoneLeft(db, candidates + [device], bootId, found + [device])
  {
    hide KeyOf, Missing;
    var found' := found + [device];
    forall d | d in candidates + [device] && Missing(db, d, bootId)
      ensures exists i :: 0 <= i < |found'| && KeyOf(db, found'[i]) == KeyOf(db, d)
    {
      if d in candidates {
        var i :| 0 <= i < |found| && KeyOf(db, found[i]) == KeyOf(db, d);
        assert found'[i] == found[i];
      } else {
        assert found'[|found|] == d;
      }
    }
  }

  /** How the statement behind an inventory read behaves: `stopsAt` is the step that returns neither a row nor the
      end. */
  datatype ReadFaults = ReadFaults(prepared: bool, stopsAt: Option<nat>, finalized: bool)

  predicate ReadsFully(t: Table, f: ReadFaults) {
    f.prepared && f.finalized && (f.stopsAt.Some? ==> f.stopsAt.value > |ById(t)|)
  }

  /** The complete inventory or nothing: rows read before a failure are never handed out. */
  method GetAllDevicesChecked(t: Table, f: ReadFaults) returns (ok: bool, devices: seq<Row>)
    ensures ok <==> ReadsFully(t, f)
    ensures ok <==> f.prepared && f.finalized && (f.stopsAt == None || f.stopsAt.value > |ById(t)|)
    ensures devices == if ok then ById(t) else []
  {
    devices := [];
    if !f.prepared {
      return false, [];
    }
    var rows := ById(t);
    var step := 0;
    while step < |rows| && f.stopsAt != Some(step)
      invariant 0 <= step <= |rows| && devices == rows[..step]
      invariant f.stopsAt.Some? ==> step <= f.stopsAt.value
    {
      devices := devices + [rows[step]];
      step := step + 1;
    }
    if f.stopsAt == Some(step) {
      return false, [];
    }
    if !f.finalized {
      return false, [];
    }
    assert rows[..|rows|] == rows;
    ok := true;
  }

  /** The whole scan. A full check runs over a proven inventory read or not at all: a failed read
      yields no result; a candidate list is examined as it is. */
  method CollectMissing(db: Database, faults: ReadFaults, candidateIds: Option<seq<int>>, bootId: string)
    returns (scan: Scan, ghost found: seq<Row>)
    requires db.Valid()
    ensures scan.ok <==> candidateIds.Some? || ReadsFully(db.rows, faults)
    ensures !scan.ok ==> scan.violations == []
    ensures scan.ok && candidateIds == None ==> Exact(db, ById(db.rows), bootId, scan.violations, found)
    ensures candidateIds.Some? ==>
              exists candidates :: Exact(db, candidates, bootId, scan.violations, found) &&
                Listed(db, candidateIds.value, candidates)
  {
    hide Exact;
    var candidates;
    if candidateIds.Some? {
      candidates := Candidates(db, candidateIds.value);
    } else {
      var ok;
      ok, candidates := GetAllDevicesChecked(db.rows, faults);
      if !ok {
        found := [];
        return Scan(false, []), found;
      }
    }
    var violations;
    violations, found := ScanCandidates(db, candidates, bootId);
    scan := Scan(true, violations);
  }

  /** Keys tell identities apart as long as subsystem names are single lines; a hash may hold line
      breaks, as the hash of a virtual row does when its path has one. */
  lemma KeyIsIdentity(a: Row, b: Row)
    requires '\n' !in a.subsystem && '\n' !in b.subsystem
    ensures ObligationKey(a) == ObligationKey(b) <==> SameIdentity(a, b)
  {
    if ObligationKey(a) == ObligationKey(b) {
      var s := ObligationKey(a);
      assert s[|a.hash|] == '\n' && s[|b.hash|] == '\n';
      assert forall k :: |a.hash| < k < |s| ==> s[k] == a.subsystem[k - |a.hash| - 1];
      assert forall k :: |b.hash| < k < |s| ==> s[k] == b.subsystem[k - |b.hash| - 1];
      assert |a.hash| == |b.hash|;
      assert s[..|a.hash|] == a.hash && s[..|b.hash|] == b.hash;
      assert s[|a.hash| + 1..] == a.subsystem && s[|b.hash| + 1..] == b.subsystem;
    }
  }

  /** A permanent level always comes from a row of the table, and the obligation is that row's. */
  lemma PermanentHasSource(db: Database, device: Row)
    requires db.Valid() && device.id in db.rows && db.rows[device.id] == device
    requires Effective(db, device, None, None).level == Permanent
    ensures var policy := Effective(db, device, None, None);
            policy.sourceId in db.rows && SourceRow(db, device, policy) == db.rows[policy.sourceId] &&
            db.rows[policy.sourceId].level == Permanent && SameIdentity(db.rows[policy.sourceId], device)
  {
    hide CategoryDenial, NearestRule, PathToRoot, FirstIdentityRule, Occurrences, ById;
    var rows := ById(db.rows);
    ByIdExact(db.rows);
    IdentityRuleIsMinimal(rows, device.hash, device.subsystem, None);
    var identity := FirstIdentityRule(Occurrences(rows, device.hash, device.subsystem), None);
    if identity.Some? {
      var r :| SmallestRule(rows, r, device.hash, device.subsystem, None) && identity.value == WithOverride(r, None);
      assert r in rows;
    }
  }

  /** Some row of the identity is connected in this boot, or the row is one that has no boot. */
  predicate Attended(t: Table, r: Row, bootId: string) {
    bootId != "" &&
    (r.bootId == "-1" ||
     exists k :: k in t && t[k].hash == r.hash && t[k].subsystem == r.subsystem && t[k].bootId == bootId)
  }

  /** A stored device is missing exactly when it is held permanent by a row whose identity nobody attends. */
  lemma MissingExactly(db: Database, id: int, bootId: string)
    requires db.Valid() && id in db.rows
    ensures var policy := Effective(db, db.rows[id], None, None);
            Missing(db, db.rows[id], bootId) <==>
            policy.level == Permanent && policy.sourceId in db.rows &&
            !Attended(db.rows, db.rows[policy.sourceId], bootId)
  {
    hide Effective, ById;
    var policy := Effective(db, db.rows[id], None, None);
    ByIdExact(db.rows);
    if policy.level == Permanent {
      PermanentHasSource(db, db.rows[id]);
      AttendedExactly(db.rows, db.rows[policy.sourceId], bootId);
    }
  }

  lemma AttendedExactly(t: Table, r: Row, bootId: string)
    requires ValidTable(t) && r.id in t
    ensures IdentityConnected(ById(t), r, bootId) <==> Attended(t, r, bootId)
  {
    hide ById;
    ByIdExact(t);
    if k :| k in t && t[k].hash == r.hash && t[k].subsystem == r.subsystem && t[k].bootId == bootId {
      assert t[k] in ById(t);
    }
  }

  ghost predicate SingleLineSubsystems(db: Database) {
    forall id :: id in db.rows ==> '\n' !in db.rows[id].subsystem
  }

  /** Some device of the identity is held permanent and is missing. */
  ghost predicate MissingIdentity(db: Database, bootId: string, hash: string, subsystem: string)
    requires db.Valid()
  {
    exists id :: id in db.rows && db.rows[id].hash == hash && db.rows[id].subsystem == subsystem &&
      Missing(db, db.rows[id], bootId)
  }

  /** The violation's source is a row of the identity. */
  ghost predicate Names(db: Database, v: Violation, hash: string, subsystem: string) {
    v.sourceId in db.rows && db.rows[v.sourceId].hash == hash && db.rows[v.sourceId].subsystem == subsystem
  }

  lemma FoundSource(db: Database, bootId: string, violations: seq<Violation>, found: seq<Row>, i: int)
    requires db.Valid() && Exact(db, ById(db.rows), bootId, violations, found) && 0 <= i < |found|
    ensures found[i].id in db.rows && db.rows[found[i].id] == found[i] && Missing(db, found[i], bootId)
    ensures Names(db, violations[i], found[i].hash, found[i].subsystem)
    ensures var v, policy := violations[i], Effective(db, found[i], None, None);
            v.deviceId == found[i].id && v.sourceId == policy.sourceId && v.devpath == found[i].devpath &&
            v.source == policy.source
    ensures KeyOf(db, found[i]) == ObligationKey(db.rows[violations[i].sourceId])
  {
    hide Effective, IdentityConnected, ById;
    ByIdExact(db.rows);
    assert found[i] in ById(db.rows);
    PermanentHasSource(db, found[i]);
  }

  /** Soundness and completeness of the full scan in terms of identities: an identity is reported
      exactly when some device held permanent by a rule of it has no connected occurrence. */
  lemma FullScanExact(db: Database, bootId: string, violations: seq<Violation>, found: seq<Row>, hash: string,
                      subsystem: string)
    requires db.Valid() && Exact(db, ById(db.rows), bootId, violations, found) && SingleLineSubsystems(db)
    ensures (exists v :: v in violations && Names(db, v, hash, subsystem)) <==>
              MissingIdentity(db, bootId, hash, subsystem)
  {
    hide Effective, IdentityConnected, ById, Missing;
    if MissingIdentity(db, bootId, hash, subsystem) {
      var id :| id in db.rows && db.rows[id].hash == hash && db.rows[id].subsystem == subsystem &&
        Missing(db, db.rows[id], bootId);
      var i := MissingIsFound(db, bootId, violations, found, db.rows[id]);
      assert violations[i] in violations;
    }
    if v :| v in violations && Names(db, v, hash, subsystem) {
      var i :| 0 <= i < |violations| && violations[i] == v;
      FoundSource(db, bootId, violations, found, i);
      assert db.rows[found[i].id].hash == hash;
    }
  }

  lemma FoundKey(db: Database, candidates: seq<Row>, bootId: string, violations: seq<Violation>, found: seq<Row>,
                 d: Row) returns (i: int)
    requires db.Valid() && Exact(db, candidates, bootId, violations, found) && d in candidates && Missing(db, d, bootId)
    ensures 0 <= i < |found| == |violations| && KeyOf(db, found[i]) == KeyOf(db, d)
  {
    hide Missing, KeyOf, Reports;
    i :| 0 <= i < |found| && KeyOf(db, found[i]) == KeyOf(db, d);
  }

  lemma DeviceKey(db: Database, d: Row)
    requires db.Valid() && SingleLineSubsystems(db) && d.id in db.rows && db.rows[d.id] == d
    requires Effective(db, d, None, None).level == Permanent
    ensures '\n' !in d.subsystem && KeyOf(db, d) == ObligationKey(d)
  {
    hide Effective;
    PermanentHasSource(db, d);
  }

  lemma MissingIsFound(db: Database, bootId: string, violations: seq<Violation>, found: seq<Row>, d: Row)
    returns (i: int)
    requires db.Valid() && Exact(db, ById(db.rows), bootId, violations, found) && SingleLineSubsystems(db)
    requires d.id in db.rows && db.rows[d.id] == d && Missing(db, d, bootId)
    ensures 0 <= i < |violations| && Names(db, violations[i], d.hash, d.subsystem)
  {
    hide Effective, IdentityConnected, ById, ObligationKey, Exact, KeyOf;
    ByIdExact(db.rows);
    i := FoundKey(db, ById(db.rows), bootId, violations, found, d);
    FoundSource(db, bootId, violations, found, i);
    DeviceKey(db, d);
    KeyIsIdentity(db.rows[violations[i].sourceId], d);
  }

  /** No identity is reported twice. */
  lemma FullScanDistinct(db: Database, bootId: string, violations: seq<Violation>, found: seq<Row>, i: int, j: int)
    requires db.Valid() && Exact(db, ById(db.rows), bootId, violations, found) && SingleLineSubsystems(db)
    requires 0 <= i < j < |violations|
    ensures violations[i].sourceId in db.rows && violations[j].sourceId in db.rows
    ensures !SameIdentity(db.rows[violations[i].sourceId], db.rows[violations[j].sourceId])
  {
    hide Effective, IdentityConnected, ById, Missing, KeyOf;
    FoundSource(db, bootId, violations, found, i);
    FoundSource(db, bootId, violations, found, j);
    KeyIsIdentity(db.rows[violations[i].sourceId], db.rows[violations[j].sourceId]);
  }

  /** A full scan is empty exactly when no device held permanent is missing. */
  lemma EmptyScanExactly(db: Database, bootId: string, violations: seq<Violation>, found: seq<Row>)
    requires db.Valid() && Exact(db, ById(db.rows), bootId, violations, found)
    ensures violations == [] <==> forall id :: id in db.rows ==> !Missing(db, db.rows[id], bootId)
  {
    hide Missing, ById, KeyOf, Reports;
    ByIdExact(db.rows);
    if violations != [] {
      assert found[0] in ById(db.rows);
    }
    if id :| id in db.rows && Missing(db, db.rows[id], bootId) {
      var i := FoundKey(db, ById(db.rows), bootId, violations, found, db.rows[id]);
    }
  }
}
