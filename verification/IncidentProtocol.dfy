/** The permanent-device incident: request, reaction of the main daemon, reply, and how it is read. */
module IncidentProtocol {
  import opened Common
  import opened PermanentScan

  /** Field names of the two messages; any other name is `Other`. */
  datatype Field =
    | Command | DeviceIds | DeviceIdsTotal | ApiVersion
    | Acknowledged | PersistenceConfirmed | IgnoredEvent | ResponseMode
    | Escalated | RequestedSeverity | EffectiveSeverity | Runtime | Message
    | OkField | IncidentOk | Reason | PersistentStateBroken | Detail
    | Other(name: string)

  datatype Json =
    | JNull
    | JBool(b: bool)
    | JInt(v: int)
    | JReal
    | JString(s: string)
    | JArray(items: seq<Json>)
    | JObject(fields: map<Field, Json>)

  const MAX_IDS := 64
  const INT_MAX := 0x7FFF_FFFF
  const COMMAND := "incident_device_missing"

  // ----- the request

  predicate DeviceIdJson(j: Json) {
    j.JInt? && 0 < j.v <= INT_MAX
  }

  function IdList(violations: seq<Violation>): seq<Json> {
    seq(Least(|violations|, MAX_IDS), i requires 0 <= i < |violations| => JInt(violations[i].deviceId))
  }

  /** The id list is cut to its bound; the total stays truthful. */
  method BuildRequest(violations: seq<Violation>) returns (request: Json)
    ensures request == JObject(map[Command := JString(COMMAND), DeviceIds := JArray(IdList(violations)),
            DeviceIdsTotal := JInt(|violations|)])
  {
    var carried := if |violations| < MAX_IDS then |violations| else MAX_IDS;
    var ids := [];
    for index := 0 to carried
      invariant |ids| == index && forall k :: 0 <= k < index ==> ids[k] == JInt(violations[k].deviceId)
    {
      ids := ids + [JInt(violations[index].deviceId)];
    }
    assert ids == IdList(violations);
    request := JObject(map[Command := JString(COMMAND), DeviceIds := JArray(ids),
      DeviceIdsTotal := JInt(|violations|)]);
  }

  predicate RequestField(f: Field) {
    f == Command || f == DeviceIds || f == DeviceIdsTotal || f == ApiVersion
  }

  /** What the sender demands of its own request. */
  ghost predicate RequestOk(request: Json) {
    && request.JObject?
    && (forall f :: f in request.fields ==> RequestField(f))
    && Command in request.fields && request.fields[Command] == JString(COMMAND)
    && DeviceIds in request.fields && request.fields[DeviceIds].JArray?
    && 0 < |request.fields[DeviceIds].items| <= MAX_IDS
    && (forall i :: 0 <= i < |request.fields[DeviceIds].items| ==> DeviceIdJson(request.fields[DeviceIds].items[i]))
    && DeviceIdsTotal in request.fields && request.fields[DeviceIdsTotal].JInt?
    && 0 <= request.fields[DeviceIdsTotal].v <= INT_MAX
  }

  method IsValidRequest(request: Json) returns (ok: bool)
    ensures ok <==> RequestOk(request)
  {
    if !request.JObject? {
      return false;
    }
    if exists f :: f in request.fields && !RequestField(f) {
      return false;
    }
    if Command !in request.fields || request.fields[Command] != JString(COMMAND) {
      return false;
    }
    if DeviceIds !in request.fields || !request.fields[DeviceIds].JArray? {
      return false;
    }
    var ids := request.fields[DeviceIds].items;
    if |ids| == 0 || |ids| > MAX_IDS {
      return false;
    }
    for i := 0 to |ids|
      invariant forall k :: 0 <= k < i ==> DeviceIdJson(ids[k])
    {
      if !DeviceIdJson(ids[i]) {
        return false;
      }
    }
    ok := DeviceIdsTotal in request.fields && request.fields[DeviceIdsTotal].JInt?
          && 0 <= request.fields[DeviceIdsTotal].v <= INT_MAX;
  }

  /** What the main daemon demands: the same, and a total covering the list. */
  ghost predicate EventOk(fields: map<Field, Json>) {
    && (forall f :: f in fields ==> RequestField(f))
    && DeviceIds in fields && fields[DeviceIds].JArray? && 0 < |fields[DeviceIds].items| <= MAX_IDS
    && (forall i :: 0 <= i < |fields[DeviceIds].items| ==> DeviceIdJson(fields[DeviceIds].items[i]))
    && DeviceIdsTotal in fields && fields[DeviceIdsTotal].JInt?
    && |fields[DeviceIds].items| <= fields[DeviceIdsTotal].v <= INT_MAX
  }

  /** A missing field ends in the same refusal as a malformed one. */
  method ValidateEvent(fields: map<Field, Json>) returns (ok: bool, deviceIds: seq<int>)
    ensures ok <==> EventOk(fields)
    ensures ok ==> |deviceIds| == |fields[DeviceIds].items| && forall i :: 0 <= i < |deviceIds| ==>
              fields[DeviceIds].items[i] == JInt(deviceIds[i])
  {
    ok, deviceIds := false, [];
    if exists f :: f in fields && !RequestField(f) {
      return;
    }
    if DeviceIds !in fields || !fields[DeviceIds].JArray? || fields[DeviceIds].items == [] {
      return;
    }
    var ids := fields[DeviceIds].items;
    if |ids| > MAX_IDS {
      return;
    }
    for i := 0 to |ids|
      invariant |deviceIds| == i && forall k :: 0 <= k < i ==> DeviceIdJson(ids[k]) && ids[k] == JInt(deviceIds[k])
    {
      if !DeviceIdJson(ids[i]) {
        return;
      }
      deviceIds := deviceIds + [ids[i].v];
    }
    if DeviceIdsTotal !in fields || !fields[DeviceIdsTotal].JInt? || fields[DeviceIdsTotal].v < 0
       || fields[DeviceIdsTotal].v > INT_MAX || fields[DeviceIdsTotal].v < |ids| {
      return;
    }
    ok := true;
  }

  ghost function RequestFields(violations: seq<Violation>): map<Field, Json> {
    map[Command := JString(COMMAND), DeviceIds := JArray(IdList(violations)), DeviceIdsTotal := JInt(|violations|)]
  }

  /** The ids a report may carry. */
  ghost predicate Reportable(violations: seq<Violation>) {
    && 0 < |violations| <= INT_MAX
    && forall i :: 0 <= i < |violations| && i < MAX_IDS ==> 0 < violations[i].deviceId <= INT_MAX
  }

  /** Both sides accept the request of exactly the reportable batches: an empty one is never sent. */
  lemma RequestAcceptedByBothExactly(violations: seq<Violation>)
    ensures RequestOk(JObject(RequestFields(violations))) <==> Reportable(violations)
    ensures EventOk(RequestFields(violations)) <==> Reportable(violations)
  {
    var ids := IdList(violations);
    assert forall i :: 0 <= i < |ids| ==> ids[i] == JInt(violations[i].deviceId);
    if RequestOk(JObject(RequestFields(violations))) || EventOk(RequestFields(violations)) {
      forall i | 0 <= i < |violations| && i < MAX_IDS ensures 0 < violations[i].deviceId <= INT_MAX {
        assert DeviceIdJson(ids[i]);
      }
    }
  }

  /** The version the transport adds is admitted by both checks, and no other field is. */
  lemma OtherFieldsExactly(violations: seq<Violation>, f: Field, value: Json)
    requires Reportable(violations) && f !in RequestFields(violations)
    ensures RequestOk(JObject(RequestFields(violations)[f := value])) <==> f == ApiVersion
    ensures EventOk(RequestFields(violations)[f := value]) <==> f == ApiVersion
  {
    RequestAcceptedByBothExactly(violations);
    var all := RequestFields(violations)[f := value];
    assert f in all;
  }

  // ----- the reaction

  datatype Kind = Disabled | NoReaction | Severe | Unproven

  datatype Severity = Unlocked | Soft | Standard | Hard | Isolate

  datatype Reaction = Reaction(kind: Kind, severity: Severity)

  /** The violation severity token family. */
  function ParseSeverity(token: string): Option<Option<Severity>> {
    if token == "NONE" then Some(None)
    else if token == "SOFT" then Some(Some(Soft))
    else if token == "STANDARD" then Some(Some(Standard))
    else if token == "HARD" then Some(Some(Hard))
    else if token == "ISOLATE" then Some(Some(Isolate))
    else None
  }

  /** What the configuration holds: the raw status entry, the loaded switch, and the value. */
  datatype Setting = Setting(registered: bool, readable: bool, rawStatus: Option<string>, enabled: bool,
    value: Option<string>)

  predicate StatusProven(s: Setting) {
    s.registered && s.readable && (s.rawStatus == Some("ENABLE") || s.rawStatus == Some("DISABLE"))
  }

  function Resolve(s: Setting): Reaction {
    if !StatusProven(s) then Reaction(Unproven, Isolate)
    else if !s.enabled then Reaction(Disabled, Unlocked)
    else if s.value.None? then Reaction(Unproven, Isolate)
    else match ParseSeverity(s.value.value)
      case None => Reaction(Unproven, Isolate)
      case Some(None) => Reaction(NoReaction, Unlocked)
      case Some(Some(severity)) => Reaction(Severe, severity)
  }

  predicate Intentional(k: Kind) {
    k == Disabled || k == NoReaction
  }

  /** The incident is passed over only by a proven switch or a proven NONE; anything unreadable isolates. */
  lemma ResolveFailsClosed(s: Setting)
    ensures Intentional(Resolve(s).kind) <==> StatusProven(s) && (!s.enabled || s.value == Some("NONE"))
    ensures Resolve(s).kind == Unproven ==> Resolve(s).severity == Isolate
    ensures !Intentional(Resolve(s).kind) ==> Resolve(s).severity != Unlocked
  {
    hide StatusProven;
    if s.value.Some? {
      SeverityTokens(s.value.value);
    }
  }

  lemma SeverityTokens(token: string)
    ensures ParseSeverity(token) == Some(None) <==> token == "NONE"
    ensures ParseSeverity(token).Some? && ParseSeverity(token).value.Some? ==>
              ParseSeverity(token).value.value != Unlocked
  {
  }

  /** A severity is reacted with exactly when the setting is registered, readable, literally switched on or
      off, then on, and names it. */
  lemma ReactionExactly(s: Setting)
    ensures var proven := s.registered && s.readable &&
            (s.rawStatus == Some("ENABLE") || s.rawStatus == Some("DISABLE"));
            && (forall x :: Resolve(s) == Reaction(Severe, x) <==>
                  proven && s.enabled && x != Unlocked && s.value == Some(Name(x)))
            && (Resolve(s).kind == Disabled <==> proven && !s.enabled)
            && (Resolve(s).kind == NoReaction <==> proven && s.enabled && s.value == Some("NONE"))
  {
    if s.value.Some? {
      NamesParse(s.value.value);
    }
  }

  function Name(x: Severity): string {
    match x
    case Unlocked => "NONE"
    case Soft => "SOFT"
    case Standard => "STANDARD"
    case Hard => "HARD"
    case Isolate => "ISOLATE"
  }

  lemma NamesParse(token: string)
    ensures forall x :: ParseSeverity(token) == Some(Some(x)) <==> x != Unlocked && token == Name(x)
    ensures ParseSeverity(token) == Some(None) <==> token == "NONE"
  {
    assert "SOFT"[1] != "STANDARD"[1];
    assert |"NONE"| == 4 && |"SOFT"| == 4 && |"STANDARD"| == 8 && |"HARD"| == 4 && |"ISOLATE"| == 7;
    assert "NONE"[0] != "SOFT"[0] && "SOFT"[0] != "HARD"[0] && "NONE"[0] != "HARD"[0];
  }

  // ----- the reply

  datatype Mode = Off | Passive | Active

  function Token(m: Mode): string {
    match m
    case Off => "OFF"
    case Passive => "PASSIVE"
    case Active => "ACTIVE"
  }

  predicate KnownMode(token: string) {
    token == "OFF" || token == "PASSIVE" || token == "ACTIVE"
  }

  /** What the incident controller reports about one raise. */
  datatype Raised = Raised(
    ok: bool, ignoredByMode: bool, persistenceConfirmed: bool, escalated: bool, broken: bool,
    effective: string, runtime: string, detail: string)

  function ReplyText(persistenceConfirmed: bool, degraded: bool): string {
    if !persistenceConfirmed then "device incident could not be recorded"
    else if degraded then "device incident recorded; containment degraded"
    else "device incident processed"
  }

  function IgnoredReply(diagnostic: string, mode: string, effective: string, runtime: string): map<Field, Json> {
    map[
      OkField := JBool(true), Message := JString("device incident intentionally ignored"), Command := JString(COMMAND),
      Acknowledged := JBool(true), PersistenceConfirmed := JBool(false), IncidentOk := JBool(true),
        Escalated := JBool(false),
      Reason := JString(diagnostic), ResponseMode := JString(mode), RequestedSeverity := JString("NONE"),
      EffectiveSeverity := JString(effective), IgnoredEvent := JBool(true), Runtime := JString(runtime),
        ApiVersion := JInt(1)]
  }

  function RaisedReply(diagnostic: string, requested: string, mode: string, r: Raised, text: string): map<Field, Json> {
    map[
      OkField := JBool(r.ok), Message := JString(text), Command := JString(COMMAND),
      Acknowledged := JBool(r.persistenceConfirmed), PersistenceConfirmed := JBool(r.persistenceConfirmed),
        IncidentOk := JBool(r.ok),
      Escalated := JBool(r.escalated), Reason := JString(diagnostic), ResponseMode := JString(mode),
        RequestedSeverity := JString(requested),
      EffectiveSeverity := JString(r.effective), IgnoredEvent := JBool(false), PersistentStateBroken := JBool(r.broken),
      Runtime := JString(r.runtime), Detail := JString(r.detail), ApiVersion := JInt(1)]
  }

  function Reply(kind: Kind, diagnostic: string, requested: string, mode: string, r: Raised): Json {
    JObject(
      if r.ignoredByMode || Intentional(kind) then IgnoredReply(diagnostic, mode, r.effective, r.runtime)
      else RaisedReply(diagnostic, requested, mode, r, ReplyText(r.persistenceConfirmed, r.runtime == "degraded")))
  }

  datatype Acknowledgement = Acknowledgement(
    valid: bool, acknowledged: bool, persistenceConfirmed: bool, ignored: bool, escalated: bool, mode: string)

  const NO_ACKNOWLEDGEMENT := Acknowledgement(false, false, false, false, false, "")

  /** value(field, default) of the JSON library: a present value of another type is an exception. */
  predicate OptionalBool(fields: map<Field, Json>, f: Field) {
    f in fields ==> fields[f].JBool?
  }

  predicate OptionalString(fields: map<Field, Json>, f: Field) {
    f in fields ==> fields[f].JString?
  }

  predicate NamesCommand(fields: map<Field, Json>) {
    Command in fields && fields[Command] == JString(COMMAND)
  }

  predicate RequiredFields(fields: map<Field, Json>) {
    && Acknowledged in fields && fields[Acknowledged].JBool?
    && PersistenceConfirmed in fields && fields[PersistenceConfirmed].JBool?
    && IgnoredEvent in fields && fields[IgnoredEvent].JBool?
    && ResponseMode in fields && fields[ResponseMode].JString?
  }

  predicate OptionalFields(fields: map<Field, Json>) {
    && OptionalBool(fields, Escalated) && OptionalString(fields, RequestedSeverity) &&
       OptionalString(fields, EffectiveSeverity)
    && OptionalString(fields, Runtime) && OptionalString(fields, Message)
  }

  /** None stands for the exception the JSON library throws. */
  function Parse(response: Json): Option<Acknowledgement> {
    if !response.JObject? then Some(NO_ACKNOWLEDGEMENT)
    else
      var fields := response.fields;
      if !NamesCommand(fields) then
        (if OptionalString(fields, Message) then Some(NO_ACKNOWLEDGEMENT) else None)
      else if !RequiredFields(fields) then Some(NO_ACKNOWLEDGEMENT)
      else if !OptionalFields(fields) then None
      else
        var escalated := Escalated in fields && fields[Escalated].b;
        var a := Acknowledgement(false, fields[Acknowledged].b, fields[PersistenceConfirmed].b,
          fields[IgnoredEvent].b, escalated, fields[ResponseMode].s);
        if !KnownMode(a.mode) then Some(a)
        else if a.ignored && (a.persistenceConfirmed || !a.acknowledged) then Some(a)
        else if !a.ignored && a.acknowledged != a.persistenceConfirmed then Some(a)
        else Some(a.(valid := true))
  }

  /** The fields of a reply the parser looks at. */
  ghost predicate ReplyShape(fields: map<Field, Json>, acknowledged: bool, persisted: bool, ignored: bool, mode: string)
  {
    && NamesCommand(fields) && RequiredFields(fields) && OptionalFields(fields)
    && fields[Acknowledged].b == acknowledged && fields[PersistenceConfirmed].b == persisted
    && fields[IgnoredEvent].b == ignored && fields[ResponseMode].s == mode
  }

  lemma IgnoredReplyShape(diagnostic: string, mode: string, effective: string, runtime: string)
    ensures ReplyShape(IgnoredReply(diagnostic, mode, effective, runtime), true, false, true, mode)
  {
    hide COMMAND;
  }

  lemma RaisedReplyShape(diagnostic: string, requested: string, mode: string, r: Raised, text: string)
    ensures ReplyShape(RaisedReply(diagnostic, requested, mode, r, text), r.persistenceConfirmed,
            r.persistenceConfirmed, false, mode)
  {
    hide COMMAND;
  }

  /** Every reply the main daemon can build is understood, and read as delivered exactly when it should be. */
  lemma ReplyUnderstoodExactly(kind: Kind, diagnostic: string, requested: string, mode: string, r: Raised)
    ensures var a := Parse(Reply(kind, diagnostic, requested, mode, r));
            && a.Some? && (a.value.valid <==> KnownMode(mode))
            && a.value.ignored == (r.ignoredByMode || Intentional(kind))
            && (a.value.acknowledged <==> a.value.ignored || r.persistenceConfirmed)
            && a.value.mode == mode
  {
    hide KnownMode, IgnoredReply, RaisedReply, OptionalFields, ReplyText;
    if r.ignoredByMode || Intentional(kind) {
      IgnoredReplyShape(diagnostic, mode, r.effective, r.runtime);
    } else {
      RaisedReplyShape(diagnostic, requested, mode, r, ReplyText(r.persistenceConfirmed, r.runtime == "degraded"));
    }
  }

  /** What the reply says beside that: the severities, the reason, the mode and what became of the state. */
  ghost predicate ReplySays(fields: map<Field, Json>, ignored: bool, diagnostic: string, requested: string,
                            mode: string,
                            r: Raised)
  {
    ReplyStates(fields, ignored, diagnostic, requested, mode, r) && Says(fields, Message, JString(TextFor(ignored, r)))
  }

  ghost predicate ReplyStates(fields: map<Field, Json>, ignored: bool, diagnostic: string, requested: string,
                              mode: string, r: Raised)
  {
    && Says(fields, Reason, JString(diagnostic)) && Says(fields, ResponseMode, JString(mode))
    && Says(fields, EffectiveSeverity, JString(r.effective)) && Says(fields, Runtime, JString(r.runtime))
    && Says(fields, RequestedSeverity, JString(if ignored then "NONE" else requested))
    && Says(fields, IgnoredEvent, JBool(ignored)) && Says(fields, Escalated, JBool(!ignored && r.escalated))
    && Says(fields, IncidentOk, JBool(ignored || r.ok))
    && (!ignored ==> Says(fields, PersistentStateBroken, JBool(r.broken)) && Says(fields, Detail, JString(r.detail)))
  }

  function TextFor(ignored: bool, r: Raised): string {
    if ignored then "device incident intentionally ignored"
    else if !r.persistenceConfirmed then "device incident could not be recorded"
    else if r.runtime == "degraded" then "device incident recorded; containment degraded"
    else "device incident processed"
  }

  predicate Says(fields: map<Field, Json>, f: Field, value: Json) {
    f in fields && fields[f] == value
  }

  lemma RaisedReplyStates(diagnostic: string, requested: string, mode: string, r: Raised, text: string)
    ensures ReplyStates(RaisedReply(diagnostic, requested, mode, r, text), false, diagnostic, requested, mode, r)
  {
    hide COMMAND;
  }

  lemma RaisedReplyTells(diagnostic: string, requested: string, mode: string, r: Raised, text: string)
    ensures Says(RaisedReply(diagnostic, requested, mode, r, text), Message, JString(text))
  {
    hide COMMAND;
  }

  lemma RaisedReplySays(diagnostic: string, requested: string, mode: string, r: Raised)
    ensures var text := ReplyText(r.persistenceConfirmed, r.runtime == "degraded");
            ReplySays(RaisedReply(diagnostic, requested, mode, r, text), false, diagnostic, requested, mode, r)
  {
    hide ReplyStates, RaisedReply, Says;
    RaisedReplyStates(diagnostic, requested, mode, r, TextFor(false, r));
    RaisedReplyTells(diagnostic, requested, mode, r, TextFor(false, r));
  }

  lemma IgnoredReplySays(diagnostic: string, requested: string, mode: string, r: Raised)
    ensures ReplySays(IgnoredReply(diagnostic, mode, r.effective, r.runtime), true, diagnostic, requested, mode, r)
  {
    hide COMMAND;
  }

  lemma ReplySaysExactly(kind: Kind, diagnostic: string, requested: string, mode: string, r: Raised)
    ensures Reply(kind, diagnostic, requested, mode, r).JObject?
    ensures ReplySays(Reply(kind, diagnostic, requested, mode, r).fields, r.ignoredByMode || Intentional(kind),
              diagnostic, requested, mode, r)
  {
    hide ReplySays, RaisedReply, IgnoredReply, ReplyText;
    RaisedReplySays(diagnostic, requested, mode, r);
    IgnoredReplySays(diagnostic, requested, mode, r);
  }

  /** An intentional reaction is answered without raising anything. */
  lemma QuietSays(diagnostic: string, requested: string, mode: string, r: Raised, kind: Kind)
    requires Intentional(kind)
    ensures var quiet := r.(ignoredByMode := true, persistenceConfirmed := false, ok := true);
            Reply(kind, diagnostic, "NONE", mode, quiet).JObject? &&
            ReplySays(Reply(kind, diagnostic, "NONE", mode, quiet).fields, true, diagnostic, requested, mode, r)
  {
    hide ReplySays, RaisedReply, IgnoredReply, ReplyText;
    IgnoredReplySays(diagnostic, requested, mode, r);
  }

  lemma ModeTokensKnown(m: Mode)
    ensures KnownMode(Token(m))
  {
  }

  /** The field is a text, if it is there. */
  predicate TextOrNone(fields: map<Field, Json>, f: Field) {
    f !in fields || fields[f].JString?
  }

  /** A reply of any shape is valid exactly when it names the command, has its three statements and a known mode,
      no optional field of another type, and the statements agree. */
  lemma ValidReplyExactly(response: Json)
    ensures Parse(response).Some? && Parse(response).value.valid <==>
            response.JObject? &&
            var f := response.fields;
            && Says(f, Command, JString("incident_device_missing"))
            && Acknowledged in f && f[Acknowledged].JBool? && PersistenceConfirmed in f &&
               f[PersistenceConfirmed].JBool?
            && IgnoredEvent in f && f[IgnoredEvent].JBool?
            && ResponseMode in f && f[ResponseMode].JString? && f[ResponseMode].s in ["OFF", "PASSIVE", "ACTIVE"]
            && (Escalated !in f || f[Escalated].JBool?) && TextOrNone(f, RequestedSeverity) &&
               TextOrNone(f, EffectiveSeverity)
            && TextOrNone(f, Runtime) && TextOrNone(f, Message)
            && (if f[IgnoredEvent].b then f[Acknowledged].b && !f[PersistenceConfirmed].b
                else f[Acknowledged].b == f[PersistenceConfirmed].b)
    ensures Parse(response).Some? && Parse(response).value.valid ==>
            var f, a := response.fields, Parse(response).value;
            && a.acknowledged == f[Acknowledged].b && a.persistenceConfirmed == f[PersistenceConfirmed].b
            && a.ignored == f[IgnoredEvent].b && a.mode == f[ResponseMode].s
            && a.escalated == Says(f, Escalated, JBool(true))
  {
  }

  // ----- the main daemon

  datatype Outcome = Refused | PassedOver | Stored | NotStored

  /** What handling an event did, which the device daemon cannot see directly. */
  function OutcomeOf(trusted: bool, valid: bool, s: Setting, r: Raised): Outcome {
    if !trusted || !valid then Refused
    else if Intentional(Resolve(s).kind) || r.ignoredByMode then PassedOver
    else if r.persistenceConfirmed then Stored
    else NotStored
  }

  const ERROR_REPLY := JObject(map[OkField := JBool(false), Message := JString("error")])

  /** The handler: an untrusted peer or a malformed event is refused before any reaction. */
  method HandleEvent(fields: map<Field, Json>, trusted: bool, s: Setting, mode: Mode, raised: Raised,
                     diagnostic: string, requested: string)
    returns (reply: Json)
    ensures OutcomeOf(trusted, EventOk(fields), s, raised) == Refused ==> Parse(reply) == Some(NO_ACKNOWLEDGEMENT)
    ensures OutcomeOf(trusted, EventOk(fields), s, raised) != Refused ==>
              && Parse(reply).Some? && Parse(reply).value.valid
              && (Parse(reply).value.acknowledged <==> Settles(OutcomeOf(trusted, EventOk(fields), s, raised)))
              && reply.JObject?
              && ReplySays(reply.fields, Intentional(Resolve(s).kind) || raised.ignoredByMode, diagnostic, requested,
                           Token(mode), raised)
  {
    hide Parse, Resolve, EventOk, ReplySays, Reply;
    RefusalUnderstood();
    if !trusted {
      return ERROR_REPLY;
    }
    var ok, deviceIds := ValidateEvent(fields);
    if !ok {
      return ERROR_REPLY;
    }
    var reaction := Resolve(s);
    ModeTokensKnown(mode);
    if reaction.kind == Disabled || reaction.kind == NoReaction {
      var quiet := raised.(ignoredByMode := true, persistenceConfirmed := false, ok := true);
      ReplyUnderstoodExactly(reaction.kind, diagnostic, "NONE", Token(mode), quiet);
      ReplySaysExactly(reaction.kind, diagnostic, "NONE", Token(mode), quiet);
      QuietSays(diagnostic, requested, Token(mode), raised, reaction.kind);
      reply := Reply(reaction.kind, diagnostic, "NONE", Token(mode), quiet);
    } else {
      ReplyUnderstoodExactly(reaction.kind, diagnostic, requested, Token(mode), raised);
      ReplySaysExactly(reaction.kind, diagnostic, requested, Token(mode), raised);
      reply := Reply(reaction.kind, diagnostic, requested, Token(mode), raised);
    }
  }

  /** The event is on record, or it was passed over on purpose. */
  predicate Settles(o: Outcome) {
    o == Stored || o == PassedOver
  }

  lemma RefusalUnderstood()
    ensures Parse(ERROR_REPLY) == Some(NO_ACKNOWLEDGEMENT)
  {
  }
}
