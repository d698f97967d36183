/** The readiness status the login gate relies on: its consistency, its wire form, and what it permits. */
module Readiness {
  import opened Common

  datatype AccessStatus = AccessStatus(
    state: string, mode: string, severity: string,
    modeProven: bool, stateProven: bool, provenance: string, loginAllowed: bool)

  datatype PreLoginStatus = PreLoginStatus(
    access: AccessStatus,
    started: bool, completed: bool, applyOk: bool, lifecycleCompleted: bool,
    diagnostic: string, bootId: string, daemonPid: int)

  predicate KnownState(s: string) {
    s in ["INITIALIZING", "APPLYING", "READY", "DEGRADED", "STOPPING"]
  }

  predicate KnownMode(s: string) {
    s in ["OFF", "PASSIVE", "ACTIVE"]
  }

  predicate KnownSeverity(s: string) {
    s in ["UNLOCKED", "SOFT", "STANDARD", "HARD", "ISOLATE"]
  }

  predicate KnownProvenance(s: string) {
    s in ["PROVEN", "ABSENT", "INVALID_CONTENT", "BROKEN"]
  }

  predicate ComputedLoginAllowed(s: AccessStatus) {
    s.modeProven && (s.mode != "ACTIVE" ||
      (s.state == "READY" && s.stateProven && (s.severity == "UNLOCKED" || s.severity == "SOFT")))
  }

  predicate Validate(s: AccessStatus) {
    && KnownState(s.state) && KnownMode(s.mode) && (s.modeProven || s.mode == "ACTIVE")
    && KnownSeverity(s.severity) && KnownProvenance(s.provenance)
    && s.stateProven == (s.provenance == "PROVEN") && (s.stateProven || s.severity == "ISOLATE")
    && s.loginAllowed == ComputedLoginAllowed(s)
  }

  /** Without a proven mode, or in active mode without a proven mild state, no valid status allows login. */
  lemma ValidStatusFailsClosed(s: AccessStatus)
    requires Validate(s)
    ensures !s.modeProven ==> s.mode == "ACTIVE" && !s.loginAllowed
    ensures s.mode == "ACTIVE" && !s.stateProven ==> s.severity == "ISOLATE" && !s.loginAllowed
    ensures s.loginAllowed && s.mode == "ACTIVE" ==>
              s.state == "READY" && s.provenance == "PROVEN" && s.severity != "ISOLATE" && s.severity != "HARD" &&
                s.severity != "STANDARD"
  {
    hide KnownState, KnownMode, KnownSeverity, KnownProvenance;
  }

  // ----- boot ids

  predicate Dash(i: int) {
    i == 8 || i == 13 || i == 18 || i == 23
  }

  predicate Hex(c: char) {
    '0' <= c <= '9' || 'a' <= c <= 'f'
  }

  /** 8-4-4-4-12 lower-case hexadecimal digits. */
  predicate BootIdShape(s: string) {
    |s| == 36 && forall i :: 0 <= i < 36 ==> if Dash(i) then s[i] == '-' else Hex(s[i])
  }

  method ValidBootId(value: string) returns (ok: bool)
    ensures ok <==> BootIdShape(value)
  {
    if |value| != 36 {
      return false;
    }
    for i := 0 to |value|
      invariant forall k :: 0 <= k < i ==> if Dash(k) then value[k] == '-' else Hex(value[k])
    {
      if i == 8 || i == 13 || i == 18 || i == 23 {
        if value[i] != '-' {
          return false;
        }
      } else if !('0' <= value[i] <= '9') && !('a' <= value[i] <= 'f') {
        return false;
      }
    }
    ok := true;
  }

  // ----- automatic handoff

  predicate MayAutoHandoff(s: PreLoginStatus, boot: string) {
    && Validate(s.access) && BootIdShape(boot) && s.bootId == boot && s.daemonPid > 0
    && s.started && s.completed && s.applyOk && s.lifecycleCompleted && s.access.modeProven
    && s.access.state == "READY" && s.access.loginAllowed
  }

  /** Handoff is allowed exactly for a finished startup of this boot that ordinary login may follow. */
  lemma HandoffMeansLogin(s: PreLoginStatus, boot: string)
    requires Validate(s.access) && Consistent(s) && BootIdShape(boot) && s.daemonPid > 0
    ensures MayAutoHandoff(s, boot) <==>
            s.bootId == boot && s.applyOk && s.access.state == "READY" && s.access.modeProven &&
            (s.access.mode == "ACTIVE" ==>
                s.access.stateProven && (s.access.severity == "UNLOCKED" || s.access.severity == "SOFT"))
  {
    hide KnownState, KnownMode, KnownSeverity, KnownProvenance;
  }

  /** The same for every status, consistent or not: nothing is taken for granted. */
  lemma HandoffExactly(s: PreLoginStatus, boot: string)
    ensures MayAutoHandoff(s, boot) <==>
            && Validate(s.access) && BootIdShape(boot) && s.bootId == boot && s.daemonPid > 0
            && s.started && s.completed && s.applyOk && s.lifecycleCompleted
            && s.access.state == "READY" && s.access.modeProven
            && (s.access.mode == "ACTIVE" ==>
                  s.access.provenance == "PROVEN" && (s.access.severity == "UNLOCKED" || s.access.severity == "SOFT"))
  {
    hide KnownState, KnownMode, KnownSeverity, KnownProvenance, BootIdShape;
  }

  // ----- the wire form

  datatype Key =
    | ApiVersion | OkKey | Message | DaemonState | ResponseMode | ModeProvenKey | SeverityKey | StateProvenKey
    | ProvenanceKey | LoginAllowedKey
    | Started | Completed | ApplyOk | LifecycleCompleted | Diagnostic | BootId | DaemonPid
    | Unknown(name: string)

  datatype Value = Flag(b: bool) | Number(n: int) | Text(s: string) | Compound

  type Object = map<Key, Value>

  const MAX_TEXT := 4096
  const PID_MAX := 2147483647

  const ACCESS_TEXT := "incident access gate status"
  const PRELOGIN_TEXT := "prelogin status"

  function AccessObject(s: AccessStatus, message: string): Object {
    map[ApiVersion := Number(1), OkKey := Flag(true), Message := Text(message),
        DaemonState := Text(s.state), ResponseMode := Text(s.mode), ModeProvenKey := Flag(s.modeProven),
        SeverityKey := Text(s.severity), StateProvenKey := Flag(s.stateProven),
        ProvenanceKey := Text(s.provenance), LoginAllowedKey := Flag(s.loginAllowed)]
  }

  function PhaseObject(s: PreLoginStatus): Object {
    map[Started := Flag(s.started), Completed := Flag(s.completed), ApplyOk := Flag(s.applyOk),
        LifecycleCompleted := Flag(s.lifecycleCompleted), Diagnostic := Text(Shortened(s.diagnostic)),
        BootId := Text(s.bootId), DaemonPid := Number(s.daemonPid)]
  }

  function SerializeAccess(s: AccessStatus): Object {
    AccessObject(s, ACCESS_TEXT)
  }

  function Shortened(s: string): string {
    if |s| <= MAX_TEXT then s else s[..MAX_TEXT]
  }

  function SerializePreLogin(s: PreLoginStatus): Object {
    AccessObject(s.access, PRELOGIN_TEXT) + PhaseObject(s)
  }

  predicate IsFlag(o: Object, k: Key) {
    k in o && o[k].Flag?
  }

  predicate IsText(o: Object, k: Key) {
    k in o && o[k].Text?
  }

  predicate AccessTyped(o: Object) {
    && ApiVersion in o && o[ApiVersion] == Number(1) && OkKey in o && o[OkKey] == Flag(true)
    && IsText(o, Message) && |o[Message].s| <= MAX_TEXT
    && IsFlag(o, ModeProvenKey) && IsFlag(o, StateProvenKey) && IsFlag(o, LoginAllowedKey)
    && IsText(o, DaemonState) && IsText(o, ResponseMode) && IsText(o, SeverityKey) && IsText(o, ProvenanceKey)
  }

  /** None where a field is missing, mistyped, or the status contradicts itself. */
  function AccessFields(o: Object): Option<AccessStatus> {
    if !AccessTyped(o) then None
    else
      var s := AccessStatus(o[DaemonState].s, o[ResponseMode].s, o[SeverityKey].s, o[ModeProvenKey].b,
        o[StateProvenKey].b,
                            o[ProvenanceKey].s, o[LoginAllowedKey].b);
      if Validate(s) then Some(s) else None
  }

  function ParseAccess(o: Object): Option<AccessStatus> {
    if |o| == 10 then AccessFields(o) else None
  }

  /** The startup phases happen in order, and readiness comes last. */
  predicate Consistent(s: PreLoginStatus) {
    && (s.completed ==> s.started) && (s.applyOk ==> s.completed) && (s.lifecycleCompleted ==> s.completed)
    && (s.access.state == "READY" ==> s.lifecycleCompleted)
  }

  predicate Acceptable(s: PreLoginStatus) {
    && Validate(s.access) && 0 < s.daemonPid <= PID_MAX && BootIdShape(s.bootId)
    && |s.diagnostic| <= MAX_TEXT && '\0' !in s.diagnostic && Consistent(s)
  }

  predicate PreLoginTyped(o: Object) {
    && IsFlag(o, Started) && IsFlag(o, Completed) && IsFlag(o, ApplyOk) && IsFlag(o, LifecycleCompleted)
    && IsText(o, Diagnostic) && IsText(o, BootId) && DaemonPid in o && o[DaemonPid].Number?
  }

  function ParsePreLogin(o: Object): (r: Option<PreLoginStatus>)
    ensures r.Some? ==> Acceptable(r.value)
  {
    if |o| != 17 || AccessFields(o).None? || !PreLoginTyped(o) then None
    else
      var s := PreLoginStatus(AccessFields(o).value, o[Started].b, o[Completed].b, o[ApplyOk].b,
        o[LifecycleCompleted].b,
                              o[Diagnostic].s, o[BootId].s, o[DaemonPid].n);
      if Acceptable(s) then Some(s) else None
  }

  // ----- round trips

  ghost predicate AccessKey(k: Key) {
    k in {ApiVersion, OkKey, Message, DaemonState, ResponseMode, ModeProvenKey, SeverityKey, StateProvenKey,
      ProvenanceKey, LoginAllowedKey}
  }

  ghost predicate PhaseKey(k: Key) {
    k in {Started, Completed, ApplyOk, LifecycleCompleted, Diagnostic, BootId, DaemonPid}
  }

  lemma AccessKeys(s: AccessStatus, message: string)
    ensures forall k :: k in AccessObject(s, message) <==> AccessKey(k)
  {
  }

  lemma PhaseKeys(s: PreLoginStatus)
    ensures forall k :: k in PhaseObject(s) <==> PhaseKey(k)
  {
  }

  lemma TenKeys(o: set<Key>)
    requires forall k :: k in o <==> AccessKey(k)
    ensures |o| == 10
  {
    var s5 := {ApiVersion, OkKey, Message, DaemonState, ResponseMode};
    var t5 := {ModeProvenKey, SeverityKey, StateProvenKey, ProvenanceKey, LoginAllowedKey};
    assert |s5| == 5 && |t5| == 5 && s5 !! t5;
    assert forall k :: k in o <==> k in s5 + t5;
    assert o == s5 + t5;
  }

  lemma SevenKeys(o: set<Key>)
    requires forall k :: k in o <==> PhaseKey(k)
    ensures |o| == 7
  {
    var s4 := {Started, Completed, ApplyOk, LifecycleCompleted};
    var t3 := {Diagnostic, BootId, DaemonPid};
    assert |s4| == 4 && |t3| == 3 && s4 !! t3;
    assert forall k :: k in o <==> k in s4 + t3;
    assert o == s4 + t3;
  }

  lemma AccessObjectRead(s: AccessStatus, message: string)
    requires |message| <= MAX_TEXT
    ensures AccessFields(AccessObject(s, message)) == if Validate(s) then Some(s) else None
  {
    hide Validate;
  }

  lemma AccessFieldsLocal(x: Object, y: Object)
    requires forall k :: AccessKey(k) ==> (k in x <==> k in y) && (k in x ==> x[k] == y[k])
    ensures AccessFields(x) == AccessFields(y)
  {
    hide Validate;
    assert AccessKey(ApiVersion) && AccessKey(OkKey) && AccessKey(Message) && AccessKey(DaemonState) &&
           AccessKey(ResponseMode);
    assert AccessKey(ModeProvenKey) && AccessKey(SeverityKey) && AccessKey(StateProvenKey) &&
           AccessKey(ProvenanceKey) && AccessKey(LoginAllowedKey);
    hide AccessKey;
    assert AccessTyped(x) == AccessTyped(y);
  }

  lemma ShortTexts()
    ensures |ACCESS_TEXT| <= MAX_TEXT && |PRELOGIN_TEXT| <= MAX_TEXT
  {
  }

  /** What the access gate writes, a strict client reads back; an inconsistent status it refuses. */
  lemma AccessRoundTrip(s: AccessStatus)
    ensures ParseAccess(SerializeAccess(s)) == if Validate(s) then Some(s) else None
  {
    hide Validate, AccessObject, AccessFields, ACCESS_TEXT;
    ShortTexts();
    AccessKeys(s, ACCESS_TEXT);
    TenKeys(AccessObject(s, ACCESS_TEXT).Keys);
    AccessObjectRead(s, ACCESS_TEXT);
  }

  lemma PreLoginSize(s: PreLoginStatus)
    ensures |SerializePreLogin(s)| == 17
  {
    hide AccessObject, PhaseObject, PRELOGIN_TEXT;
    var a, b := AccessObject(s.access, PRELOGIN_TEXT), PhaseObject(s);
    AccessKeys(s.access, PRELOGIN_TEXT);
    PhaseKeys(s);
    TenKeys(a.Keys);
    SevenKeys(b.Keys);
    assert forall k :: k in (a + b).Keys <==> k in a.Keys + b.Keys;
    assert (a + b).Keys == a.Keys + b.Keys;
    assert a.Keys !! b.Keys;
  }

  lemma PreLoginFields(s: PreLoginStatus)
    ensures AccessFields(SerializePreLogin(s)) == if Validate(s.access) then Some(s.access) else None
  {
    hide AccessObject, PhaseObject, PRELOGIN_TEXT, AccessFields, Validate;
    ShortTexts();
    AccessKeys(s.access, PRELOGIN_TEXT);
    PhaseKeys(s);
    var a, b := AccessObject(s.access, PRELOGIN_TEXT), PhaseObject(s);
    forall k | AccessKey(k) ensures (k in a + b <==> k in a) && (k in a ==> (a + b)[k] == a[k]) {
      assert !PhaseKey(k);
    }
    AccessFieldsLocal(a + b, a);
    AccessObjectRead(s.access, PRELOGIN_TEXT);
  }

  lemma PhaseFields(s: PreLoginStatus)
    ensures PreLoginTyped(SerializePreLogin(s))
    ensures var o := SerializePreLogin(s);
            && o[Started].b == s.started && o[Completed].b == s.completed && o[ApplyOk].b == s.applyOk
            && o[LifecycleCompleted].b == s.lifecycleCompleted && o[Diagnostic].s == Shortened(s.diagnostic)
            && o[BootId].s == s.bootId && o[DaemonPid].n == s.daemonPid
  {
    hide AccessObject, PRELOGIN_TEXT, Shortened;
  }

  /** The same for the pre-login status, whose diagnostic is cut to its bound. */
  lemma PreLoginRoundTrip(s: PreLoginStatus)
    ensures var cut := s.(diagnostic := Shortened(s.diagnostic));
            ParsePreLogin(SerializePreLogin(s)) == if Acceptable(cut) then Some(cut) else None
  {
    PreLoginSize(s);
    PreLoginFields(s);
    PhaseFields(s);
    hide AccessFields, Validate, BootIdShape, Consistent, SerializePreLogin, Shortened, PreLoginTyped;
  }

  // ----- what a strict client accepts

  lemma SameSize(a: set<Key>, b: set<Key>)
    requires a <= b && |a| == |b|
    ensures a == b
  {
    assert |b| == |a| + |b - a|;
    if b - a == {} {
      assert a == b;
    }
  }

  ghost function AllKeys(): set<Key> {
    {ApiVersion, OkKey, Message, DaemonState, ResponseMode, ModeProvenKey, SeverityKey, StateProvenKey, ProvenanceKey,
     LoginAllowedKey} + {Started, Completed, ApplyOk, LifecycleCompleted, Diagnostic, BootId, DaemonPid}
  }

  lemma SeventeenKeys()
    ensures |AllKeys()| == 17
    ensures forall k :: k in AllKeys() <==> AccessKey(k) || PhaseKey(k)
  {
    var ten := {ApiVersion, OkKey, Message, DaemonState, ResponseMode, ModeProvenKey, SeverityKey, StateProvenKey,
      ProvenanceKey, LoginAllowedKey};
    var seven := {Started, Completed, ApplyOk, LifecycleCompleted, Diagnostic, BootId, DaemonPid};
    TenKeys(ten);
    SevenKeys(seven);
    assert ten !! seven;
  }

  lemma TypedHasKeys(o: Object)
    requires AccessTyped(o) && PreLoginTyped(o)
    ensures AllKeys() <= o.Keys
  {
  }

  /** The status with the fields of an object. */
  function ReadAccess(o: Object): AccessStatus
    requires AccessTyped(o)
  {
    AccessStatus(o[DaemonState].s, o[ResponseMode].s, o[SeverityKey].s, o[ModeProvenKey].b, o[StateProvenKey].b,
      o[ProvenanceKey].s, o[LoginAllowedKey].b)
  }

  function Read(o: Object): PreLoginStatus
    requires AccessTyped(o) && PreLoginTyped(o)
  {
    PreLoginStatus(
      ReadAccess(o), o[Started].b, o[Completed].b, o[ApplyOk].b, o[LifecycleCompleted].b, o[Diagnostic].s,
        o[BootId].s, o[DaemonPid].n)
  }

  lemma ParsedIsRead(o: Object)
    requires ParsePreLogin(o).Some?
    ensures |o| == 17 && AccessTyped(o) && PreLoginTyped(o) && ParsePreLogin(o).value == Read(o) && Acceptable(Read(o))
  {
    hide Validate, Acceptable;
  }

  lemma AccessBack(o: Object, message: string, k: Key)
    requires AccessTyped(o) && AccessKey(k) && k != Message && k in o
    ensures k in AccessObject(ReadAccess(o), message) && o[k] == AccessObject(ReadAccess(o), message)[k]
  {
  }

  lemma MessageIsShort(o: Object)
    requires AccessTyped(o)
    ensures Message in o && o[Message].Text? && |o[Message].s| <= 4096
  {
  }

  /** The same for the gate's own status. */
  lemma ParseAccessIsInverse(o: Object)
    requires ParseAccess(o).Some?
    ensures var s := ParseAccess(o).value;
            && (forall k :: k in o <==> k in SerializeAccess(s))
            && (forall k :: k in o && k != Message ==> o[k] == SerializeAccess(s)[k])
            && Message in o && o[Message].Text? && |o[Message].s| <= 4096
  {
    hide Validate, AccessObject, ACCESS_TEXT;
    var s, ten := ReadAccess(o), {ApiVersion, OkKey, Message, DaemonState, ResponseMode, ModeProvenKey, SeverityKey,
      StateProvenKey, ProvenanceKey, LoginAllowedKey};
    assert ParseAccess(o) == Some(s);
    AccessKeys(s, ACCESS_TEXT);
    TenKeys(ten);
    assert ten <= o.Keys;
    MessageIsShort(o);
    hide AccessTyped, ReadAccess;
    SameSize(ten, o.Keys);
    forall k
      ensures k in o <==> k in SerializeAccess(s)
      ensures k in o && k != Message ==> o[k] == SerializeAccess(s)[k]
    {
      assert k in o <==> k in ten;
      assert AccessKey(k) <==> k in ten;
      if k in o && k != Message {
        AccessBack(o, ACCESS_TEXT, k);
      }
    }
  }

  lemma PhaseBack(o: Object, k: Key)
    requires AccessTyped(o) && PreLoginTyped(o) && PhaseKey(k) && k in o && |o[Diagnostic].s| <= MAX_TEXT
    ensures k in PhaseObject(Read(o)) && o[k] == PhaseObject(Read(o))[k]
  {
    hide AccessTyped;
  }

  lemma SerializedAt(s: PreLoginStatus, k: Key)
    ensures AccessKey(k) ==>
              k in SerializePreLogin(s) && k in AccessObject(s.access, PRELOGIN_TEXT) &&
              SerializePreLogin(s)[k] == AccessObject(s.access, PRELOGIN_TEXT)[k]
    ensures PhaseKey(k) ==>
              k in SerializePreLogin(s) && k in PhaseObject(s) && SerializePreLogin(s)[k] == PhaseObject(s)[k]
    ensures k in SerializePreLogin(s) <==> AccessKey(k) || PhaseKey(k)
  {
    hide AccessObject, PhaseObject, PRELOGIN_TEXT;
    AccessKeys(s.access, PRELOGIN_TEXT);
    PhaseKeys(s);
    assert AccessKey(k) ==> !PhaseKey(k);
  }

  /** Whatever object is accepted says nothing but what the status read from it would write, except for the
      free text. */
  lemma ParseIsInverse(o: Object)
    requires ParsePreLogin(o).Some?
    ensures var s := ParsePreLogin(o).value;
            && (forall k :: k in o <==> k in SerializePreLogin(s))
            && (forall k :: k in o && k != Message ==> o[k] == SerializePreLogin(s)[k])
            && Message in o && o[Message].Text? && |o[Message].s| <= 4096
  {
    hide ParsePreLogin, Acceptable, AccessTyped, PreLoginTyped, Read, AccessKey, PhaseKey, SerializePreLogin, AllKeys,
         AccessObject, PhaseObject, PRELOGIN_TEXT;
    ParsedIsRead(o);
    MessageIsShort(o);
    ReadHasAccess(o);
    DiagnosticIsShort(o);
    SeventeenKeys();
    TypedHasKeys(o);
    SameSize(AllKeys(), o.Keys);
    forall k
      ensures k in o <==> k in SerializePreLogin(Read(o))
      ensures k in o && k != Message ==> k in SerializePreLogin(Read(o)) && o[k] == SerializePreLogin(Read(o))[k]
    {
      assert k in o <==> k in AllKeys();
      SerializedAt(Read(o), k);
      if k in o && k != Message {
        if AccessKey(k) {
          AccessBack(o, PRELOGIN_TEXT, k);
        } else {
          PhaseBack(o, k);
        }
      }
    }
  }

  lemma ReadHasAccess(o: Object)
    requires AccessTyped(o) && PreLoginTyped(o)
    ensures Read(o).access == ReadAccess(o)
  {
  }

  lemma DiagnosticIsShort(o: Object)
    requires AccessTyped(o) && PreLoginTyped(o) && Acceptable(Read(o))
    ensures |o[Diagnostic].s| <= MAX_TEXT
  {
    hide Validate, BootIdShape, AccessTyped;
  }

  /** What a status has to be: known words, an unproven mode treated as active and an unproven state as
      isolation, login as these demand, a live daemon of a well-formed boot, and phases in their order. */
  lemma AcceptedExactly(s: PreLoginStatus)
    ensures Acceptable(s) <==>
            var a := s.access;
            && a.state in ["INITIALIZING", "APPLYING", "READY", "DEGRADED", "STOPPING"]
            && a.mode in ["OFF", "PASSIVE", "ACTIVE"] && (!a.modeProven ==> a.mode == "ACTIVE")
            && a.severity in ["UNLOCKED", "SOFT", "STANDARD", "HARD", "ISOLATE"]
            && a.provenance in ["PROVEN", "ABSENT", "INVALID_CONTENT", "BROKEN"]
            && (a.stateProven <==> a.provenance == "PROVEN") && (!a.stateProven ==> a.severity == "ISOLATE")
            && (a.loginAllowed <==>
                  a.modeProven && (a.mode == "ACTIVE" ==>
                    a.state == "READY" && a.stateProven && (a.severity == "UNLOCKED" || a.severity == "SOFT")))
            && 1 <= s.daemonPid <= 2147483647 && BootIdShape(s.bootId)
            && |s.diagnostic| <= 4096 && '\0' !in s.diagnostic
            && (s.completed ==> s.started) && (s.applyOk || s.lifecycleCompleted ==> s.completed)
            && (a.state == "READY" ==> s.lifecycleCompleted)
  {
    hide BootIdShape;
  }
}
