/** The obligation to report a missing permanent device until the main daemon has it. */
module PermanentRetry {
  import opened Common
  import opened DeviceTable
  import opened DeviceStore
  import CategoryPolicy
  import opened EffectivePolicy
  import opened PermanentScan
  import opened IncidentProtocol

  // ----- one report over a lossy link

  datatype Link = RequestLost | ReplyLost | Intact

  /** The main daemon at the moment of a report. */
  datatype MainDaemon = MainDaemon(trustsPeer: bool, setting: Setting, mode: Mode, raised: Raised,
    diagnostic: string, requested: string)

  /** What became of a report at the main daemon; None when it never got there. */
  ghost function Reached(violations: seq<Violation>, link: Link, main: MainDaemon): Option<Outcome> {
    if Reportable(violations) && !link.RequestLost? then
        Some(OutcomeOf(main.trustsPeer, true, main.setting, main.raised)) else None
  }

  /** The report is settled with the main daemon. */
  ghost predicate Settled(violations: seq<Violation>, link: Link, main: MainDaemon) {
    Reached(violations, link, main).Some? && Settles(Reached(violations, link, main).value)
  }

  /** Settled, and the daemon was told so. */
  ghost predicate Delivered(violations: seq<Violation>, link: Link, main: MainDaemon) {
    link.Intact? && Settled(violations, link, main)
  }

  /** Reported as delivered only if settled; over an intact link exactly if settled. */
  method CallIncident(violations: seq<Violation>, link: Link, main: MainDaemon) returns (delivered: bool)
    ensures delivered <==> Delivered(violations, link, main)
  {
    hide RequestOk, EventOk, Reportable, Parse;
    delivered := false;
    var request := BuildRequest(violations);
    RequestAcceptedByBothExactly(violations);
    assert request == JObject(RequestFields(violations));
    var sound := IsValidRequest(request);
    if !sound || link.RequestLost? {
      return;
    }
    var reply := HandleEvent(request.fields, main.trustsPeer, main.setting, main.mode, main.raised, main.diagnostic,
      main.requested);
    if link.ReplyLost? {
      return;
    }
    var a := Parse(reply);
    delivered := a.Some? && a.value.valid && a.value.acknowledged;
  }

  // ----- passes and the obligation

  /** One check: whether the inventory was read to the end, over everything, and what came of it. */
  datatype Pass = Pass(proven: bool, full: bool, empty: bool, delivered: bool)

  predicate LeavesViolation(p: Pass) {
    p.proven && !p.empty && !p.delivered
  }

  /** Only a proven check of everything can show that nothing is left to report. */
  predicate Discharges(p: Pass) {
    p.proven && p.full && (p.empty || p.delivered)
  }

  function Obligation(passes: seq<Pass>): bool {
    if passes == [] then false
    else
      var p := passes[|passes| - 1];
      if LeavesViolation(p) then true else if Discharges(p) then false else Obligation(passes[..|passes| - 1])
  }

  ghost predicate OpenSince(passes: seq<Pass>, i: int) {
    0 <= i < |passes| && LeavesViolation(passes[i]) && forall j :: i < j < |passes| ==> !Discharges(passes[j])
  }

  /** The flag is up exactly when some undelivered violation has not been discharged by a later pass. */
  lemma {:induction false} ObligationExactly(passes: seq<Pass>)
    ensures Obligation(passes) <==> exists i :: OpenSince(passes, i)
  {
    if passes != [] {
      var n := |passes| - 1;
      var rest := passes[..n];
      ObligationExactly(rest);
      if LeavesViolation(passes[n]) {
        assert OpenSince(passes, n);
      } else if !Discharges(passes[n]) {
        if i :| OpenSince(rest, i) {
          assert OpenSince(passes, i);
        }
        if i :| OpenSince(passes, i) {
          assert OpenSince(rest, i);
        }
      }
    }
  }

  lemma {:induction false} ObligationSnoc(passes: seq<Pass>, p: Pass)
    ensures Obligation(passes + [p]) == (LeavesViolation(p) || (!Discharges(p) && Obligation(passes)))
  {
    assert (passes + [p])[..|passes|] == passes;
  }

  class Monitor {
    var retryRequired: bool
    ghost var passes: seq<Pass>

    ghost predicate Valid()
      reads this
    {
      retryRequired == Obligation(passes)
    }

    constructor ()
      ensures Valid() && passes == []
    {
      retryRequired, passes := false, [];
    }

    method UpdateRetry(scanOk: bool, fullCheck: bool, violationsEmpty: bool, delivered: bool)
      requires Valid()
      modifies this
      ensures Valid() && passes == old(passes) + [Pass(scanOk, fullCheck, violationsEmpty, delivered)]
      ensures !scanOk ==> retryRequired == old(retryRequired)
      ensures scanOk && fullCheck ==> retryRequired == (!violationsEmpty && !delivered)
      ensures scanOk && !fullCheck ==> retryRequired == (old(retryRequired) || (!violationsEmpty && !delivered))
    {
      ObligationSnoc(passes, Pass(scanOk, fullCheck, violationsEmpty, delivered));
      passes := passes + [Pass(scanOk, fullCheck, violationsEmpty, delivered)];
      if !scanOk {
        return;
      }
      if !fullCheck {
        if !violationsEmpty && !delivered {
          retryRequired := true;
        }
        return;
      }
      if violationsEmpty || delivered {
        retryRequired := false;
        return;
      }
      retryRequired := true;
    }

    /** Writes the local audit entries, whose event type the table's CHECK does not admit. */
    method RecordAudit(db: DeviceDb, violations: seq<Violation>, success: bool, details: string)
      requires db.Valid()
      modifies db
      ensures db.Valid() && db.content == old(db.content) && db.saved == old(db.saved)
    {
      IncidentTypeRefused();
      for i := 0 to |violations|
        invariant db.Valid() && db.content == old(db.content) && db.saved == old(db.saved)
      {
        var stored := db.AddDeviceEvent(DeviceEvent(violations[i].deviceId, "incident", if success then
          "success" else "error", details));
      }
    }

    /**
     * One check, of everything or of a list of rows. After a check of everything over a fully read
     * inventory an obligation is left exactly when a device held permanent is missing and the
     * report of it was not settled with the main daemon over an intact link; the local audit trail
     * gets none of it.
     */
    method CheckPermanentDevices(db: DeviceDb, categories: CategoryPolicy.CategoryState, faults: ReadFaults,
                                 candidateIds: Option<seq<int>>, bootId: string, link: Link, main: MainDaemon)
      returns (ok: bool, scan: Scan, ghost found: seq<Row>)
      requires Valid() && db.Valid()
      modifies this, db
      ensures Valid() && db.Valid() && db.content == old(db.content)
      ensures scan.ok <==> candidateIds.Some? || ReadsFully(db.content.rows, faults)
      ensures candidateIds.Some? ==>
                exists candidates ::
                  Exact(Inventory(db.content, categories), candidates, bootId, scan.violations, found) &&
                  Listed(Inventory(db.content, categories), candidateIds.value, candidates)
      ensures scan.ok && candidateIds == None ==>
                Exact(Inventory(db.content, categories), ById(db.content.rows), bootId, scan.violations, found)
      ensures ok <==> scan.ok && (scan.violations == [] || Delivered(scan.violations, link, main))
      ensures passes == old(passes) + [Pass(scan.ok, candidateIds == None, scan.violations == [],
                                            scan.ok && scan.violations != [] && ok)]
      ensures scan.ok && candidateIds == None ==>
                (retryRequired <==>
                   SomeMissing(Inventory(db.content, categories), bootId) && !Delivered(scan.violations, link, main))
    {
      hide Delivered, Obligation, Exact, Missing, Listed;
      ghost var stored := Inventory(db.content, categories);
      scan, found := CollectMissing(Database(db.content.rows, db.content.attributes, categories), faults,
        candidateIds, bootId);
      if !scan.ok {
        ObligationSnoc(passes, Pass(false, true, true, false));
        passes := passes + [Pass(false, true, true, false)];
        return false, scan, found;
      }
      if candidateIds == None {
        EmptyScanExactly(stored, bootId, scan.violations, found);
      }
      if scan.violations == [] {
        ObligationSnoc(passes, Pass(true, candidateIds == None, true, false));
        if candidateIds == None {
          UpdateRetry(true, true, true, false);
        } else {
          passes := passes + [Pass(true, false, true, false)];
        }
        return true, scan, found;
      }
      var delivered := CallIncident(scan.violations, link, main);
      ObligationSnoc(passes, Pass(true, candidateIds == None, false, delivered));
      UpdateRetry(true, candidateIds == None, false, delivered);
      RecordAudit(db, scan.violations, delivered, "permanent device is missing");
      ok := delivered;
    }
  }

  /** What a check reads of the database. */
  function Inventory(content: Content, categories: CategoryPolicy.CategoryState): Database {
    Database(content.rows, content.attributes, categories)
  }

  /** A device held permanent is missing. */
  ghost predicate SomeMissing(db: Database, bootId: string)
    requires db.Valid()
  {
    exists id :: id in db.rows && Missing(db, db.rows[id], bootId)
  }

  lemma IncidentTypeRefused()
    ensures !KnownEventType("incident")
  {
  }

  /** The reply may be lost after the event was stored: then it is reported again, never dropped. */
  lemma {:induction false} LostReplyIsReportedAgain(passes: seq<Pass>, full: bool)
    ensures Obligation(passes + [Pass(true, full, false, false)])
    ensures Obligation(passes + [Pass(true, full, false, false)] + [Pass(false, true, true, false)])
    ensures Obligation(passes + [Pass(true, full, false, false)] + [Pass(true, false, true, false)])
  {
    var left := passes + [Pass(true, full, false, false)];
    ObligationSnoc(passes, Pass(true, full, false, false));
    ObligationSnoc(left, Pass(false, true, true, false));
    ObligationSnoc(left, Pass(true, false, true, false));
  }
}
